/**
 * The `key=value` selector accepted by the label-expiry purge.
 * The operator unpacks `label.split("=")` into exactly two names, so the
 * selector is read with Python's `str.split` semantics for a one-character
 * separator, and anything that does not split into two parts is refused.
 */
module Selector {
  import opened Wrappers

  const Separator: char := '='

  /** Number of occurrences of `c` in `s`. */
  function Count(s: string, c: char): nat
  {
    if s == [] then 0 else (if s[0] == c then 1 else 0) + Count(s[1..], c)
  }

  /**
   * `s.split(sep)`: the maximal separator-free pieces between occurrences
   * of `sep`; an empty string gives one empty piece.
   */
  function Split(s: string, sep: char): (parts: seq<string>)
    ensures |parts| == Count(s, sep) + 1
    ensures forall p :: p in parts ==> sep !in p
  {
    if s == [] then [""]
    else
      var rest := Split(s[1..], sep);
      if s[0] == sep then [""] + rest
      else [[s[0]] + rest[0]] + rest[1..]
  }

  /** `sep.join(parts)`, the inverse of `Split`. */
  function Join(parts: seq<string>, sep: char): string
  {
    if parts == [] then ""
    else if |parts| == 1 then parts[0]
    else parts[0] + [sep] + Join(parts[1..], sep)
  }

  /** Joining the pieces back with the separator gives the original string. */
  lemma {:induction false} JoinSplit(s: string, sep: char)
    ensures Join(Split(s, sep), sep) == s
  {
    if s != [] {
      var rest := Split(s[1..], sep);
      JoinSplit(s[1..], sep);
      if s[0] == sep {
        assert Split(s, sep) == [""] + rest;
      } else if |rest| == 1 {
        assert Split(s, sep) == [[s[0]] + rest[0]];
      } else {
        assert Split(s, sep) == [[s[0]] + rest[0]] + rest[1..];
        assert Join(rest, sep) == rest[0] + [sep] + Join(rest[1..], sep);
      }
    }
  }

  /** A string without the separator is one piece. */
  lemma {:induction false} SplitWhole(s: string, sep: char)
    requires sep !in s
    ensures Split(s, sep) == [s]
  {
    if s != [] {
      SplitWhole(s[1..], sep);
      assert [s[0]] + s[1..] == s;
    }
  }

  /** A separator-free head followed by the separator is split off as the first piece. */
  lemma {:induction false} SplitHead(a: string, b: string, sep: char)
    requires sep !in a
    ensures Split(a + [sep] + b, sep) == [a] + Split(b, sep)
  {
    var s := a + [sep] + b;
    if a == [] {
      assert s[1..] == b;
    } else {
      assert s[1..] == a[1..] + [sep] + b;
      SplitHead(a[1..], b, sep);
      assert [a[0]] + a[1..] == a;
    }
  }

  /**
   * `label_key, label_value = label.split("=")`: the selector is accepted
   * exactly when it contains one `=`, and then it is `key=value` with
   * neither side holding an `=`.
   */
  function ParseSelector(selector: string): (r: Option<(string, string)>)
    ensures r.Some? <==> Count(selector, Separator) == 1
    ensures r.Some? ==> selector == r.value.0 + [Separator] + r.value.1
    ensures r.Some? ==> Separator !in r.value.0 && Separator !in r.value.1
  {
    var parts := Split(selector, Separator);
    JoinSplit(selector, Separator);
    if |parts| == 2 then
      assert Join(parts, Separator) == parts[0] + [Separator] + parts[1];
      Some((parts[0], parts[1]))
    else None
  }

  /** Every `key=value` with no `=` on either side is read back as that pair. */
  lemma SelectorRoundTrip(key: string, value: string)
    requires Separator !in key && Separator !in value
    ensures ParseSelector(key + [Separator] + value) == Some((key, value))
  {
    SplitHead(key, value, Separator);
    SplitWhole(value, Separator);
  }
}
