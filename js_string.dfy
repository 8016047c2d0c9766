/** The part of JavaScript's `String.prototype.split` that the catalog uses: splitting on a
    one-character separator. Every occurrence of the separator closes one part and opens the
    next, so there is always at least one part, empty parts are kept, and no part holds the
    separator. */
module JsString {

  /** Number of occurrences of `c` in `s`. */
  function Count(s: string, c: char): nat {
    if s == [] then 0 else Count(s[..|s| - 1], c) + (if s[|s| - 1] == c then 1 else 0)
  }

  /** `s.split(sep)` for a one-character `sep`. */
  function Split(s: string, sep: char): (parts: seq<string>)
    ensures |parts| == Count(s, sep) + 1
    ensures forall i :: 0 <= i < |parts| ==> sep !in parts[i]
  {
    if s == [] then [""]
    else
      var init := Split(s[..|s| - 1], sep);
      var last := s[|s| - 1];
      if last == sep then init + [""]
      else init[..|init| - 1] + [init[|init| - 1] + [last]]
  }

  /** `parts.join(sep)`: undoes Split (`JoinSplit`); the converse holds only for parts free
      of the separator. */
  function Join(parts: seq<string>, sep: char): string
    requires |parts| >= 1
  {
    if |parts| == 1 then parts[0] else Join(parts[..|parts| - 1], sep) + [sep] + parts[|parts| - 1]
  }

  /** `t` is the part of `s` after the last `sep`: a suffix of `s` free of `sep` that is
      either all of `s` or preceded by `sep`. */
  predicate IsLastPart(s: string, t: string, sep: char) {
    sep !in t && |t| <= |s| && s[|s| - |t|..] == t && (|t| == |s| || s[|s| - |t| - 1] == sep)
  }

  /** Splitting loses nothing: joining the parts back gives the original string. */
  lemma {:induction false} JoinSplit(s: string, sep: char)
    ensures Join(Split(s, sep), sep) == s
  {
    if s != [] {
      var p, last := s[..|s| - 1], s[|s| - 1];
      var init := Split(p, sep);
      JoinSplit(p, sep);
      var parts := Split(s, sep);
      if last == sep {
        assert parts[..|parts| - 1] == init;
      } else if |init| > 1 {
        assert parts[..|parts| - 1] == init[..|init| - 1];
        assert s == Join(init[..|init| - 1], sep) + [sep] + init[|init| - 1] + [last];
      }
    }
  }

  /** The last element of `s.split(sep)` is exactly the part of `s` after its last `sep`. */
  lemma {:induction false} LastPartOfSplit(s: string, sep: char)
    ensures IsLastPart(s, Split(s, sep)[|Split(s, sep)| - 1], sep)
  {
    if s != [] {
      var p, last := s[..|s| - 1], s[|s| - 1];
      LastPartOfSplit(p, sep);
      var init := Split(p, sep);
      var t := init[|init| - 1];
      if last != sep {
        assert Split(s, sep)[|Split(s, sep)| - 1] == t + [last];
        assert s == p + [last];
        assert s[|s| - |t| - 1..] == p[|p| - |t|..] + [last];
      }
    }
  }

  /** A string has only one part after its last separator. */
  lemma LastPartUnique(s: string, t: string, u: string, sep: char)
    requires IsLastPart(s, t, sep) && IsLastPart(s, u, sep)
    ensures t == u
  {
  }

  lemma {:induction false} CountConcat(a: string, b: string, c: char)
    ensures Count(a + b, c) == Count(a, c) + Count(b, c)
  {
    if b != [] {
      assert (a + b)[..|a + b| - 1] == a + b[..|b| - 1];
      CountConcat(a, b[..|b| - 1], c);
    } else {
      assert a + b == a;
    }
  }

  lemma {:induction false} CountAbsent(s: string, c: char)
    ensures Count(s, c) == 0 <==> c !in s
  {
    if s != [] {
      CountAbsent(s[..|s| - 1], c);
      assert s == s[..|s| - 1] + [s[|s| - 1]];
    }
  }
}
