/**
 * The input filter run on every request: each string anywhere in the
 * (possibly nested) input is stripped of tags and trimmed. `strip_tags` is
 * a parameter.
 */
module SanitizeInput {
  import opened Php

  /** A request value that is neither a string nor an array: null, a boolean, a number or a file. */
  datatype Scalar = SNull | SBool(b: bool) | SNum(n: int) | SFile(name: string)

  /** A request value; an array keeps its keys in order. */
  datatype Input = Text(s: string) | Other(v: Scalar) | Arr(entries: seq<(string, Input)>)

  /** The value after sanitising. */
  function Clean(v: Input, strip: string -> string): (r: Input)
    ensures v.Arr? ==> r.Arr? && |r.entries| == |v.entries|
    ensures v.Arr? ==> forall i :: 0 <= i < |v.entries| ==> r.entries[i] == (v.entries[i].0, Clean(v.entries[i].1, strip))
    decreases v
  {
    match v
    case Text(s) => Text(Trim(strip(s)))
    case Other(_) => v
    case Arr(es) => Arr(seq(|es|, i requires 0 <= i < |es| => (es[i].0, Clean(es[i].1, strip))))
  }

  /** The same keys, in the same order, at every level, and the same non-string scalars. */
  predicate SameShape(a: Input, b: Input)
    decreases a
  {
    match a
    case Text(_) => b.Text?
    case Other(x) => b == Other(x)
    case Arr(es) =>
      b.Arr? && |b.entries| == |es| &&
      forall i :: 0 <= i < |es| ==> b.entries[i].0 == es[i].0 && SameShape(es[i].1, b.entries[i].1)
  }

  /** Every string leaf is trimmed already. */
  predicate AllTrimmed(v: Input)
    decreases v
  {
    match v
    case Text(s) => Trim(s) == s
    case Other(_) => true
    case Arr(es) => forall i :: 0 <= i < |es| ==> AllTrimmed(es[i].1)
  }

  /** Sanitising keeps every key at every level and leaves non-string values alone. */
  lemma {:induction false} CleanKeepsShape(v: Input, strip: string -> string)
    ensures SameShape(v, Clean(v, strip))
    decreases v
  {
    match v
    case Text(_) =>
    case Other(_) =>
    case Arr(es) =>
      forall i | 0 <= i < |es|
        ensures SameShape(es[i].1, Clean(v, strip).entries[i].1)
      {
        CleanKeepsShape(es[i].1, strip);
      }
  }

  /** After sanitising no string anywhere has leading or trailing whitespace. */
  lemma {:induction false} CleanTrimsEverything(v: Input, strip: string -> string)
    ensures AllTrimmed(Clean(v, strip))
    decreases v
  {
    match v
    case Text(s) => TrimIdempotent(strip(s));
    case Other(_) =>
    case Arr(es) =>
      forall i | 0 <= i < |es|
        ensures AllTrimmed(Clean(v, strip).entries[i].1)
      {
        CleanTrimsEverything(es[i].1, strip);
      }
  }

  /** `sanitizeArray`: the loop overwrites each entry in place, recursing into nested arrays. */
  method SanitizeArray(data: Input, strip: string -> string) returns (out: Input)
    requires data.Arr?
    ensures out == Clean(data, strip)
    decreases data
  {
    ghost var c := Clean(data, strip).entries;
    var es := data.entries;
    var i := 0;
    while i < |es|
      invariant 0 <= i <= |es| && |es| == |data.entries| == |c|
      invariant forall k :: 0 <= k < i ==> es[k] == c[k]
      invariant forall k :: i <= k < |es| ==> es[k] == data.entries[k]
    {
      var (key, value) := es[i];
      if value.Arr? {
        assert value < data;
        var nested := SanitizeArray(value, strip);
        es := es[i := (key, nested)];
      } else if value.Text? {
        es := es[i := (key, Text(Trim(strip(value.s))))];
      }
      i := i + 1;
    }
    assert es == c;
    out := Arr(es);
  }
}
