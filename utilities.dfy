/** `dict_to_string`: the `k = v` pairs of a dict joined by a separator. */
module Utilities {
  import opened PyStr
  import opened Dicts

  /** The text of one entry. */
  function EntryText(k: string, v: string): string {
    k + " = " + v
  }

  function EntryTexts(d: Dict<string>): (r: seq<string>)
    ensures |r| == |d|
    ensures forall i :: 0 <= i < |d| ==> r[i] == EntryText(d[i].0, d[i].1)
  {
    if |d| == 0 then [] else EntryTexts(d[..|d| - 1]) + [EntryText(d[|d| - 1].0, d[|d| - 1].1)]
  }

  /** `dict_to_string(data, separator)`; the default separator is `", "`. */
  function DictToString(d: Dict<string>, separator: string := ", "): string {
    Join(EntryTexts(d), separator)
  }

  /** An empty dict prints as the empty string. */
  lemma DictToStringEmpty(separator: string)
    ensures DictToString([], separator) == ""
  {
  }

  /** A dict of one entry prints as that entry alone, with no separator. */
  lemma DictToStringSingle(k: string, v: string, separator: string)
    ensures DictToString([(k, v)], separator) == k + " = " + v
  {
  }

  /** Each further entry adds the separator and its own text at the end, so
      entries appear in insertion order. */
  lemma DictToStringAppend(d: Dict<string>, k: string, v: string, separator: string)
    requires |d| > 0
    ensures DictToString(d + [(k, v)], separator) == DictToString(d, separator) + separator + k + " = " + v
  {
    assert EntryTexts(d + [(k, v)]) == EntryTexts(d) + [EntryText(k, v)];
    JoinAppend(EntryTexts(d), EntryText(k, v), separator);
  }

  /** `n` entries are printed with `n - 1` separators between them. */
  lemma DictToStringLength(d: Dict<string>, separator: string)
    requires |d| > 0
    ensures |DictToString(d, separator)| == TotalLength(EntryTexts(d)) + (|d| - 1) * |separator|
  {
    JoinLength(EntryTexts(d), separator);
  }

  /** Every entry's `k = v` text occurs in the printed dict. */
  lemma DictToStringShowsEntries(d: Dict<string>, separator: string, i: int)
    requires 0 <= i < |d|
    ensures Contains(DictToString(d, separator), EntryText(d[i].0, d[i].1))
  {
    JoinContainsPart(EntryTexts(d), separator, i);
  }
}
