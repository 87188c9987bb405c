/** Python string operations used by the zone generator: `str.split` on a
    one-character separator, `str.join`, `str.startswith` and
    `str.endswith`, on strings as sequences of characters. */
module Strings {

  /** `s.startswith(prefix)` */
  predicate StartsWith(s: string, prefix: string)
  {
    |prefix| <= |s| && s[..|prefix|] == prefix
  }

  /** `s.endswith(suffix)`: a literal, case-sensitive comparison of the last
      `|suffix|` characters; every string ends with "". */
  predicate EndsWith(s: string, suffix: string)
  {
    |suffix| <= |s| && s[|s| - |suffix|..] == suffix
  }

  lemma StartsWithIff(s: string, prefix: string)
    ensures StartsWith(s, prefix) <==> exists rest :: s == prefix + rest
  {
    if StartsWith(s, prefix) {
      assert s == prefix + s[|prefix|..];
    }
    forall rest | s == prefix + rest
      ensures StartsWith(s, prefix)
    {
      assert s[..|prefix|] == prefix;
    }
  }

  lemma EndsWithIff(s: string, suffix: string)
    ensures EndsWith(s, suffix) <==> exists head :: s == head + suffix
  {
    if EndsWith(s, suffix) {
      assert s == s[..|s| - |suffix|] + suffix;
    }
    forall head | s == head + suffix
      ensures EndsWith(s, suffix)
    {
      assert s[|s| - |suffix|..] == suffix;
    }
  }

  /** Number of occurrences of `c` in `s`. */
  function Count(s: string, c: char): (n: nat)
    ensures n == 0 <==> c !in s
    ensures n <= |s|
  {
    if s == [] then 0
    else (if s[0] == c then 1 else 0) + Count(s[1..], c)
  }

  /** `s.split(sep)` for a one-character separator: the maximal runs of
      characters other than `sep`, empty runs included, so that the result
      is never empty and "".split(sep) == [""]. */
  function Split(s: string, sep: char): (parts: seq<string>)
    ensures |parts| >= 1
    ensures forall i :: 0 <= i < |parts| ==> sep !in parts[i]
  {
    if s == [] then [""]
    else
      var rest := Split(s[1..], sep);
      if s[0] == sep then [""] + rest
      else [[s[0]] + rest[0]] + rest[1..]
  }

  /** `sep.join(parts)` */
  function Join(parts: seq<string>, sep: char): string
  {
    if parts == [] then ""
    else if |parts| == 1 then parts[0]
    else parts[0] + [sep] + Join(parts[1..], sep)
  }

  /** Splitting and joining back on the same separator gives the original. */
  lemma {:induction false} JoinSplit(s: string, sep: char)
    ensures Join(Split(s, sep), sep) == s
  {
    if s != [] {
      var rest := Split(s[1..], sep);
      JoinSplit(s[1..], sep);
      if s[0] == sep {
        assert Split(s, sep) == [""] + rest;
        assert s == [sep] + s[1..];
      } else {
        var parts := Split(s, sep);
        assert parts[0] == [s[0]] + rest[0];
        assert parts[1..] == rest[1..];
        if |rest| == 1 {
          assert s == [s[0]] + rest[0];
        } else {
          assert Join(rest, sep) == rest[0] + [sep] + Join(rest[1..], sep);
          assert s == [s[0]] + (rest[0] + [sep] + Join(rest[1..], sep));
        }
      }
    }
  }

  /** Joining parts that contain no separator and splitting back gives the parts. */
  lemma {:induction false} SplitJoin(parts: seq<string>, sep: char)
    requires |parts| >= 1
    requires forall i :: 0 <= i < |parts| ==> sep !in parts[i]
    ensures Split(Join(parts, sep), sep) == parts
  {
    if |parts| == 1 {
      SplitNoSeparator(parts[0], sep);
    } else {
      SplitJoin(parts[1..], sep);
      SplitAfterSeparator(parts[0], Join(parts[1..], sep), sep);
      assert [parts[0]] + parts[1..] == parts;
    }
  }

  /** One more part than there are separators. */
  lemma {:induction false} SplitLength(s: string, sep: char)
    ensures |Split(s, sep)| == Count(s, sep) + 1
  {
    if s != [] {
      SplitLength(s[1..], sep);
    }
  }

  lemma {:induction false} SplitNoSeparator(s: string, sep: char)
    requires sep !in s
    ensures Split(s, sep) == [s]
  {
    if s != [] {
      assert s[0] != sep;
      SplitNoSeparator(s[1..], sep);
      assert s == [s[0]] + s[1..];
    }
  }

  /** A part without the separator, then the separator, then `b`: the part
      comes first and the rest is the split of `b`. */
  lemma {:induction false} SplitAfterSeparator(a: string, b: string, sep: char)
    requires sep !in a
    ensures Split(a + [sep] + b, sep) == [a] + Split(b, sep)
  {
    var s := a + [sep] + b;
    if a == [] {
      assert s[1..] == b;
    } else {
      assert s[1..] == a[1..] + [sep] + b;
      SplitAfterSeparator(a[1..], b, sep);
      assert a == [a[0]] + a[1..];
    }
  }

  /** The first part is the text before the first separator: a prefix of
      `s` that is either all of `s` or followed by the separator. */
  lemma {:induction false} SplitHead(s: string, sep: char)
    ensures StartsWith(s, Split(s, sep)[0])
    ensures sep !in s ==> Split(s, sep)[0] == s
    ensures sep in s ==> |Split(s, sep)[0]| < |s| && s[|Split(s, sep)[0]|] == sep
  {
    if s != [] {
      SplitHead(s[1..], sep);
      if s[0] != sep {
        assert sep in s ==> sep in s[1..];
      }
    }
  }

  /** A character other than the separator that is in no part is not in `s`. */
  lemma {:induction false} SplitExcludes(s: string, sep: char, x: char)
    requires x != sep
    requires forall i :: 0 <= i < |Split(s, sep)| ==> x !in Split(s, sep)[i]
    ensures x !in s
  {
    if s != [] {
      var parts := Split(s, sep);
      var rest := Split(s[1..], sep);
      if s[0] == sep {
        forall i | 0 <= i < |rest| ensures x !in rest[i] {
          assert rest[i] == parts[i + 1];
        }
      } else {
        assert parts[0] == [s[0]] + rest[0];
        forall i | 0 <= i < |rest| ensures x !in rest[i] {
          if i > 0 {
            assert rest[i] == parts[i];
          }
        }
      }
      SplitExcludes(s[1..], sep, x);
      assert s == [s[0]] + s[1..];
    }
  }

  /** Newline-terminated text: `sep.join(xs + [""])` puts a separator after
      every element, so one more element adds it and one separator. */
  lemma {:induction false} JoinTerminatedAppend(xs: seq<string>, x: string, sep: char)
    ensures Join(xs + [x] + [""], sep) == Join(xs + [""], sep) + x + [sep]
  {
    if xs == [] {
      assert [x] + [""] == [x, ""];
      assert Join([x, ""], sep) == x + [sep] + Join([""], sep);
    } else {
      var ys := xs[1..];
      JoinTerminatedAppend(ys, x, sep);
      assert (xs + [x] + [""])[1..] == ys + [x] + [""];
      assert (xs + [""])[1..] == ys + [""];
    }
  }

  /** Two separator-free strings joined by one separator split back into them. */
  lemma SplitTwo(a: string, b: string, sep: char)
    requires sep !in a && sep !in b
    ensures Split(a + [sep] + b, sep) == [a, b]
  {
    SplitNoSeparator(b, sep);
    SplitAfterSeparator(a, b, sep);
  }
}
