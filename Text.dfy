/** String helpers used by the registry provider: the whitespace test behind
    `string.IsNullOrWhiteSpace`, joining segments with a delimiter (what
    `ConfigurationPath.Combine` does with ':'), splitting a path on a
    delimiter, and removing every occurrence of a character
    (`string.Replace(".", string.Empty)`). */
module Text {
  import opened Wrappers

  /** The characters .NET's `char.IsWhiteSpace` accepts: U+0009..U+000D,
      U+0020, U+0085, U+00A0, U+1680, U+2000..U+200A, U+2028, U+2029,
      U+202F, U+205F and U+3000. */
  predicate IsWhiteSpace(c: char)
  {
    var n := c as int;
    (0x09 <= n <= 0x0D) || n == 0x20 || n == 0x85 || n == 0xA0 || n == 0x1680
    || (0x2000 <= n <= 0x200A) || n == 0x2028 || n == 0x2029 || n == 0x202F
    || n == 0x205F || n == 0x3000
  }

  /** `string.IsNullOrWhiteSpace`: null, empty, or whitespace only. */
  predicate IsNullOrWhiteSpace(s: Option<string>)
  {
    match s
    case None => true
    case Some(t) => forall i :: 0 <= i < |t| ==> IsWhiteSpace(t[i])
  }

  /** `s.TrimStart()`: leading whitespace removed. What is removed is
      whitespace, and what is left does not start with whitespace. */
  function TrimStart(s: string): (r: string)
    ensures |r| <= |s| && r == s[|s| - |r|..]
    ensures forall i :: 0 <= i < |s| - |r| ==> IsWhiteSpace(s[i])
    ensures |r| > 0 ==> !IsWhiteSpace(r[0])
  {
    if |s| > 0 && IsWhiteSpace(s[0]) then TrimStart(s[1..]) else s
  }

  /** `s.TrimEnd()`: trailing whitespace removed. What is removed is
      whitespace, and what is left does not end with whitespace. */
  function TrimEnd(s: string): (r: string)
    ensures |r| <= |s| && r == s[..|r|]
    ensures forall i :: |r| <= i < |s| ==> IsWhiteSpace(s[i])
    ensures |r| > 0 ==> !IsWhiteSpace(r[|r| - 1])
  {
    if |s| > 0 && IsWhiteSpace(s[|s| - 1]) then TrimEnd(s[..|s| - 1]) else s
  }

  /** `s.Trim()`. */
  function Trim(s: string): string
  {
    TrimEnd(TrimStart(s))
  }

  /** `IsNullOrWhiteSpace` as .NET documents it: `IsNullOrEmpty(s) ||
      s.Trim().Length == 0`. */
  predicate IsNullOrWhiteSpaceByTrim(s: Option<string>)
  {
    s.None? || |s.value| == 0 || |Trim(s.value)| == 0
  }

  /** The character-by-character test and the documented trim-based test
      agree on every argument. */
  lemma WhiteSpaceIffTrimmedEmpty(s: Option<string>)
    ensures IsNullOrWhiteSpace(s) <==> IsNullOrWhiteSpaceByTrim(s)
  {
    if s.Some? {
      var t := s.value;
      var u := TrimStart(t);
      if !IsNullOrWhiteSpace(s) {
        var i :| 0 <= i < |t| && !IsWhiteSpace(t[i]);
        assert |t| - |u| <= i;
        assert u[i - (|t| - |u|)] == t[i];
        assert !IsWhiteSpace(u[i - (|t| - |u|)]);
      }
    }
  }

  lemma BlankExamples()
    ensures IsNullOrWhiteSpace(None) && IsNullOrWhiteSpace(Some("")) && IsNullOrWhiteSpace(Some(" \t"))
    ensures !IsNullOrWhiteSpace(Some("A")) && !IsNullOrWhiteSpace(Some(" A "))
  {
    assert !IsWhiteSpace("A"[0]);
    assert !IsWhiteSpace(" A "[1]);
  }

  /** Segments joined with `sep` between consecutive ones (`string.Join`). */
  function JoinWith(sep: char, segs: seq<string>): string
  {
    if |segs| == 0 then ""
    else if |segs| == 1 then segs[0]
    else segs[0] + [sep] + JoinWith(sep, segs[1..])
  }

  /** Joining a first segment in front of a non-empty rest puts exactly one
      delimiter between them. */
  lemma JoinCons(sep: char, head: string, rest: seq<string>)
    requires |rest| > 0
    ensures JoinWith(sep, [head] + rest) == head + [sep] + JoinWith(sep, rest)
  {
    assert ([head] + rest)[1..] == rest;
  }

  /** Joining two non-empty lists of segments: the delimiter stands between
      the two joined halves. */
  lemma {:induction false} JoinAppend(sep: char, a: seq<string>, b: seq<string>)
    requires |a| > 0 && |b| > 0
    ensures JoinWith(sep, a + b) == JoinWith(sep, a) + [sep] + JoinWith(sep, b)
    decreases |a|
  {
    if |a| == 1 {
      assert a + b == [a[0]] + b;
      JoinCons(sep, a[0], b);
    } else {
      assert a + b == [a[0]] + (a[1..] + b);
      JoinCons(sep, a[0], a[1..] + b);
      JoinAppend(sep, a[1..], b);
      JoinCons(sep, a[0], a[1..]);
      assert [a[0]] + a[1..] == a;
    }
  }

  /** Splits `s` at every `sep`; the pieces never contain `sep`, and there
      is always at least one piece. */
  function Split(s: string, sep: char): (r: seq<string>)
    ensures |r| > 0
    ensures forall i :: 0 <= i < |r| ==> sep !in r[i]
  {
    if |s| == 0 then [""]
    else
      var rest := Split(s[1..], sep);
      if s[0] == sep then [""] + rest
      else [[s[0]] + rest[0]] + rest[1..]
  }

  /** Joining the pieces of a split gives back the original string. */
  lemma {:induction false} SplitThenJoin(s: string, sep: char)
    ensures JoinWith(sep, Split(s, sep)) == s
  {
    if |s| > 0 {
      var rest := Split(s[1..], sep);
      SplitThenJoin(s[1..], sep);
      if s[0] == sep {
        JoinCons(sep, "", rest);
        assert s == [sep] + s[1..];
      } else if |rest| == 1 {
        assert Split(s, sep) == [[s[0]] + rest[0]];
        assert s == [s[0]] + s[1..];
      } else {
        var r := Split(s, sep);
        assert r == [[s[0]] + rest[0]] + rest[1..];
        JoinCons(sep, [s[0]] + rest[0], rest[1..]);
        JoinCons(sep, rest[0], rest[1..]);
        assert [rest[0]] + rest[1..] == rest;
        assert s == [s[0]] + s[1..];
      }
    }
  }

  /** Splitting a join of delimiter-free segments gives back the segments. */
  lemma {:induction false} JoinThenSplit(segs: seq<string>, sep: char)
    requires |segs| > 0
    requires forall i :: 0 <= i < |segs| ==> sep !in segs[i]
    ensures Split(JoinWith(sep, segs), sep) == segs
    decreases |segs|, |segs[0]|
  {
    if |segs[0]| > 0 {
      // Peel the first character of the first segment.
      var c := segs[0][0];
      var shorter := [segs[0][1..]] + segs[1..];
      assert shorter[1..] == segs[1..];
      JoinThenSplit(shorter, sep);
      var j := JoinWith(sep, segs);
      if |segs| == 1 {
        assert j == [c] + JoinWith(sep, shorter);
      } else {
        JoinCons(sep, segs[0], segs[1..]);
        JoinCons(sep, segs[0][1..], segs[1..]);
        assert [segs[0]] + segs[1..] == segs;
        assert j == [c] + JoinWith(sep, shorter);
      }
      assert j[1..] == JoinWith(sep, shorter);
      assert c != sep by { assert c == segs[0][0]; }
      assert [c] + segs[0][1..] == segs[0];
      assert [segs[0]] + segs[1..] == segs;
    } else if |segs| > 1 {
      JoinCons(sep, segs[0], segs[1..]);
      assert [segs[0]] + segs[1..] == segs;
      var j := JoinWith(sep, segs);
      assert j == [sep] + JoinWith(sep, segs[1..]);
      assert j[1..] == JoinWith(sep, segs[1..]);
      JoinThenSplit(segs[1..], sep);
    }
  }

  /** `s` with every occurrence of `c` removed (`s.Replace(c, "")`). */
  function RemoveAll(s: string, c: char): (r: string)
    ensures c !in r
    ensures |r| <= |s|
  {
    if |s| == 0 then ""
    else if s[0] == c then RemoveAll(s[1..], c)
    else [s[0]] + RemoveAll(s[1..], c)
  }

  /** Removal keeps every other character, in order: it distributes over
      concatenation and leaves a string without `c` as it is. */
  lemma {:induction false} RemoveAllAppend(a: string, b: string, c: char)
    ensures RemoveAll(a + b, c) == RemoveAll(a, c) + RemoveAll(b, c)
  {
    if |a| > 0 {
      assert (a + b)[1..] == a[1..] + b;
      RemoveAllAppend(a[1..], b, c);
    } else {
      assert a + b == b;
    }
  }

  /** Exactly the occurrences of `c` are dropped: the result is shorter by
      their number. */
  lemma {:induction false} RemoveAllLength(s: string, c: char)
    ensures |RemoveAll(s, c)| == |s| - multiset(s)[c]
  {
    if |s| > 0 {
      RemoveAllLength(s[1..], c);
      assert s == [s[0]] + s[1..];
    }
  }

  lemma {:induction false} RemoveAllAbsent(s: string, c: char)
    requires c !in s
    ensures RemoveAll(s, c) == s
  {
    if |s| > 0 {
      RemoveAllAbsent(s[1..], c);
      assert s == [s[0]] + s[1..];
    }
  }
}
