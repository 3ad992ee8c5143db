/** The three decorators mark a function object with a flag and hand the same
    object back; the catalog of bot commands reads those flags. */
module Decorators {

  /** A Python function object, reduced to the three attributes the
      decorators set. An attribute never set reads as `False`. */
  class FunctionObject {
    var argsAsCommandParams: bool
    var hidden: bool
    var forBotInterface: bool

    constructor ()
      ensures !argsAsCommandParams && !hidden && !forBotInterface
    {
      argsAsCommandParams := false;
      hidden := false;
      forBotInterface := false;
    }
  }

  /** `method_args_as_command_params`. */
  method MethodArgsAsCommandParams(func: FunctionObject) returns (r: FunctionObject)
    modifies func
    ensures r == func
    ensures func.argsAsCommandParams
    ensures func.hidden == old(func.hidden) && func.forBotInterface == old(func.forBotInterface)
  {
    func.argsAsCommandParams := true;
    r := func;
  }

  /** `hidden_method`. */
  method HiddenMethod(func: FunctionObject) returns (r: FunctionObject)
    modifies func
    ensures r == func
    ensures func.hidden
    ensures func.argsAsCommandParams == old(func.argsAsCommandParams) && func.forBotInterface == old(func.forBotInterface)
  {
    func.hidden := true;
    r := func;
  }

  /** `method_for_bot_interface`. */
  method MethodForBotInterface(func: FunctionObject) returns (r: FunctionObject)
    modifies func
    ensures r == func
    ensures func.forBotInterface
    ensures func.argsAsCommandParams == old(func.argsAsCommandParams) && func.hidden == old(func.hidden)
  {
    func.forBotInterface := true;
    r := func;
  }
}
