/**
 * The few java.lang.String operations the token provider relies on, with the
 * semantics of the Java platform: `substring` with its bounds check,
 * `replace` of a one-character target by the empty string, `indexOf` of a
 * character, and `split` on a one-character, non-metacharacter pattern with
 * the default limit 0 (trailing empty strings are removed).
 */
module JavaLang {
  import opened Wrappers

  /** The runtime exceptions the modelled code can throw; `OtherRuntimeException`
      is any other unchecked exception, such as one raised inside a library. */
  datatype Exception = NullPointerException | StringIndexOutOfBoundsException | OtherRuntimeException

  /** `s.substring(begin, end)`: `None` is the StringIndexOutOfBoundsException
      thrown when `begin < 0`, `end > s.length()` or `begin > end`. */
  function Substring(s: string, begin: int, end: int): (r: Option<string>)
    ensures r.Some? <==> 0 <= begin <= end <= |s|
    ensures r.Some? ==> |r.value| == end - begin
    ensures r.Some? ==> forall k :: 0 <= k < |r.value| ==> r.value[k] == s[begin + k]
  {
    if 0 <= begin <= end <= |s| then Some(s[begin..end]) else None
  }

  /** `s.indexOf(c)`: the first position of `c` in `s`, or -1. */
  function IndexOf(s: string, c: char): (r: int)
    ensures -1 <= r < |s|
    ensures r == -1 <==> c !in s
    ensures r >= 0 ==> s[r] == c && c !in s[..r]
  {
    if |s| == 0 then -1
    else if s[0] == c then 0
    else
      var k := IndexOf(s[1..], c);
      assert s[1..][..if k < 0 then 0 else k] == s[1..if k < 0 then 1 else k + 1];
      if k < 0 then -1 else k + 1
  }

  /** `s.replace(String.valueOf(c), "")`: every occurrence of `c` is deleted,
      every other character is kept. */
  function RemoveAll(s: string, c: char): (r: string)
    ensures c !in r
    ensures |r| <= |s|
    ensures forall d :: d != c ==> multiset(r)[d] == multiset(s)[d]
  {
    if |s| == 0 then ""
    else
      assert s == [s[0]] + s[1..];
      if s[0] == c then RemoveAll(s[1..], c) else [s[0]] + RemoveAll(s[1..], c)
  }

  /** Deleting distributes over concatenation. */
  lemma {:induction false} RemoveAllAppend(a: string, b: string, c: char)
    ensures RemoveAll(a + b, c) == RemoveAll(a, c) + RemoveAll(b, c)
  {
    if |a| > 0 {
      var ab := a + b;
      assert ab[0] == a[0] && ab[1..] == a[1..] + b;
      RemoveAllAppend(a[1..], b, c);
      if a[0] != c {
        assert RemoveAll(ab, c) == [a[0]] + RemoveAll(a[1..], c) + RemoveAll(b, c);
      }
    } else {
      assert a + b == b;
    }
  }

  /** A string without `c` is left unchanged; in particular deleting is idempotent. */
  lemma {:induction false} RemoveAllAbsent(s: string, c: char)
    requires c !in s
    ensures RemoveAll(s, c) == s
  {
    if |s| > 0 {
      RemoveAllAbsent(s[1..], c);
    }
  }

  /** Joins `xs` with `sep` between consecutive elements, as String.join does. */
  function Join(xs: seq<string>, sep: string): string
  {
    if |xs| == 0 then ""
    else if |xs| == 1 then xs[0]
    else xs[0] + sep + Join(xs[1..], sep)
  }

  /** The pieces of `s` between occurrences of `sep`, empty ones included:
      one more piece than there are separators. */
  function Segments(s: string, sep: char): (r: seq<string>)
    ensures |r| >= 1
    ensures forall i :: 0 <= i < |r| ==> sep !in r[i]
    ensures forall i, ch :: 0 <= i < |r| && ch in r[i] ==> ch in s
    decreases |s|
  {
    var k := IndexOf(s, sep);
    if k < 0 then [s]
    else
      var rest := Segments(s[k + 1..], sep);
      assert forall i, ch :: 1 <= i < |rest| + 1 && ch in ([s[..k]] + rest)[i] ==> ch in s[k + 1..];
      [s[..k]] + rest
  }

  /** Removes the empty strings at the end of `xs`. */
  function DropTrailingEmpty(xs: seq<string>): (r: seq<string>)
    ensures |r| <= |xs| && r == xs[..|r|]
    ensures forall i :: |r| <= i < |xs| ==> xs[i] == ""
    ensures |r| > 0 ==> r[|r| - 1] != ""
  {
    if |xs| == 0 then []
    else if xs[|xs| - 1] == "" then DropTrailingEmpty(xs[..|xs| - 1])
    else xs
  }

  /** `s.split(String.valueOf(sep))`: when `sep` does not occur the result is
      `[s]` (so `""` gives `[""]`); otherwise it is the segments of `s` with
      the trailing empty ones dropped (so a string of separators gives `[]`). */
  function Split(s: string, sep: char): (r: seq<string>)
    ensures sep !in s ==> r == [s]
    ensures sep in s ==> |r| <= |Segments(s, sep)| && r == Segments(s, sep)[..|r|]
    ensures sep in s ==> forall i :: |r| <= i < |Segments(s, sep)| ==> Segments(s, sep)[i] == ""
    ensures sep in s && |r| > 0 ==> r[|r| - 1] != ""
    ensures forall i :: 0 <= i < |r| ==> sep !in r[i]
    ensures forall i, ch :: 0 <= i < |r| && ch in r[i] ==> ch in s
  {
    if sep !in s then [s] else DropTrailingEmpty(Segments(s, sep))
  }

  /** The first separator of `a + [sep] + b` is the one after `a`. */
  lemma {:induction false} IndexOfAfterPrefix(a: string, sep: char, b: string)
    requires sep !in a
    ensures IndexOf(a + [sep] + b, sep) == |a|
  {
    if |a| > 0 {
      var s := a + [sep] + b;
      assert s[0] == a[0] && s[1..] == a[1..] + [sep] + b;
      IndexOfAfterPrefix(a[1..], sep, b);
    }
  }

  /** Joining the segments with the separator gives the string back. */
  lemma {:induction false} JoinSegments(s: string, sep: char)
    ensures Join(Segments(s, sep), [sep]) == s
    decreases |s|
  {
    var k := IndexOf(s, sep);
    if k >= 0 {
      var rest := Segments(s[k + 1..], sep);
      JoinSegments(s[k + 1..], sep);
      assert ([s[..k]] + rest)[1..] == rest;
      assert s == s[..k] + [sep] + s[k + 1..];
    }
  }

  /** Segmenting a join of separator-free strings gives the strings back. */
  lemma {:induction false} SegmentsJoin(xs: seq<string>, sep: char)
    requires |xs| >= 1
    requires forall i :: 0 <= i < |xs| ==> sep !in xs[i]
    ensures Segments(Join(xs, [sep]), sep) == xs
  {
    if |xs| > 1 {
      var tail := Join(xs[1..], [sep]);
      var s := xs[0] + [sep] + tail;
      assert Join(xs, [sep]) == s;
      IndexOfAfterPrefix(xs[0], sep, tail);
      assert s[..|xs[0]|] == xs[0];
      assert s[|xs[0]| + 1..] == tail;
      assert Segments(s, sep) == [xs[0]] + Segments(tail, sep);
      SegmentsJoin(xs[1..], sep);
      assert [xs[0]] + xs[1..] == xs;
    }
  }

  /** The last segment is empty exactly when `s` is empty or ends with the separator. */
  lemma {:induction false} SegmentsLastEmpty(s: string, sep: char)
    ensures Last(Segments(s, sep)) == "" <==> (|s| == 0 || s[|s| - 1] == sep)
    decreases |s|
  {
    var k := IndexOf(s, sep);
    if k >= 0 {
      var t := s[k + 1..];
      SegmentsLastStep(s, sep);
      if |t| > 0 {
        SegmentsLastEmpty(t, sep);
        assert t[|t| - 1] == s[|s| - 1];
      } else {
        assert Segments(t, sep) == [""];
        assert k == |s| - 1;
      }
    }
  }

  /** Past the first separator, the last segment is that of the rest. */
  lemma SegmentsLastStep(s: string, sep: char)
    requires IndexOf(s, sep) >= 0
    ensures Last(Segments(s, sep)) == Last(Segments(s[IndexOf(s, sep) + 1..], sep))
  {
    var k := IndexOf(s, sep);
    var rest := Segments(s[k + 1..], sep);
    assert Segments(s, sep) == [s[..k]] + rest;
    LastOfAppend([s[..k]], rest);
  }

  /** The last element of a non-empty sequence. */
  function Last<T>(xs: seq<T>): T
    requires |xs| > 0
  {
    xs[|xs| - 1]
  }

  lemma LastOfAppend<T>(xs: seq<T>, ys: seq<T>)
    requires |ys| > 0
    ensures Last(xs + ys) == Last(ys)
  {
  }

  /** Split and Join are inverse on lists of separator-free strings whose last
      element is not empty (a single element may be empty). */
  lemma SplitJoin(xs: seq<string>, sep: char)
    requires |xs| >= 1
    requires forall i :: 0 <= i < |xs| ==> sep !in xs[i]
    requires |xs| == 1 || xs[|xs| - 1] != ""
    ensures Split(Join(xs, [sep]), sep) == xs
  {
    if |xs| > 1 {
      var s := Join(xs, [sep]);
      assert s[|xs[0]|] == sep;
      SegmentsJoin(xs, sep);
    }
  }

  /** Joining the result of a split gives the string back whenever no trailing
      empty segment was dropped. */
  lemma JoinSplit(s: string, sep: char)
    requires sep !in s || s[|s| - 1] != sep
    ensures Join(Split(s, sep), [sep]) == s
  {
    if sep in s {
      SegmentsLastEmpty(s, sep);
      JoinSegments(s, sep);
    }
  }

  /** A join of empty strings consists of separators only. */
  lemma {:induction false} JoinOfEmpties(xs: seq<string>, sep: char)
    requires forall i :: 0 <= i < |xs| ==> xs[i] == ""
    ensures forall ch :: ch in Join(xs, [sep]) ==> ch == sep
  {
    if |xs| > 1 {
      JoinOfEmpties(xs[1..], sep);
    }
  }

  /** A string of separators only has only empty segments. */
  lemma {:induction false} SegmentsOfSeparators(s: string, sep: char)
    requires forall k :: 0 <= k < |s| ==> s[k] == sep
    ensures forall i :: 0 <= i < |Segments(s, sep)| ==> Segments(s, sep)[i] == ""
    decreases |s|
  {
    if |s| > 0 {
      assert IndexOf(s, sep) == 0;
      SegmentsOfSeparators(s[1..], sep);
    }
  }

  /** Splitting gives no strings at all exactly when the input is non-empty
      and made of separators only. */
  lemma SplitEmpty(s: string, sep: char)
    ensures Split(s, sep) == [] <==> (|s| > 0 && forall k :: 0 <= k < |s| ==> s[k] == sep)
  {
    if |s| > 0 && forall k :: 0 <= k < |s| ==> s[k] == sep {
      assert s[0] == sep;
      SegmentsOfSeparators(s, sep);
    }
    if Split(s, sep) == [] {
      assert sep in s;
      var segs := Segments(s, sep);
      JoinOfEmpties(segs, sep);
      JoinSegments(s, sep);
      forall k | 0 <= k < |s|
        ensures s[k] == sep
      {
        assert s[k] in Join(segs, [sep]);
      }
    }
  }
}
