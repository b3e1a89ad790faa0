/**
 * Java's `String.split` on a one-character delimiter, and the joins that the
 * codebase builds with `+ "_" +`.  Strings are sequences of characters.
 */
module Text {

  /**
   * Every field of `s` between occurrences of `d`, empty fields included
   * (what `split` returns before it drops trailing empty fields).
   */
  function Fields(s: string, d: char): (r: seq<string>)
    ensures |r| >= 1
    decreases |s|
  {
    if |s| == 0 then [""]
    else
      var rest := Fields(s[1..], d);
      if s[0] == d then [""] + rest
      else [[s[0]] + rest[0]] + rest[1..]
  }

  /** The fields joined with `d` between consecutive ones. */
  function Join(fs: seq<string>, d: char): string
    requires |fs| >= 1
  {
    if |fs| == 1 then fs[0] else fs[0] + [d] + Join(fs[1..], d)
  }

  /** No field contains the delimiter. */
  predicate FreeOf(fs: seq<string>, d: char)
  {
    forall i :: 0 <= i < |fs| ==> d !in fs[i]
  }

  /** Drops the empty fields at the end, as `split` does when it is given no limit. */
  function DropTrailingEmpty(fs: seq<string>): (r: seq<string>)
    ensures |r| <= |fs| && r == fs[..|r|]
    ensures |r| > 0 ==> r[|r| - 1] != ""
    ensures forall i :: |r| <= i < |fs| ==> fs[i] == ""
  {
    if |fs| == 0 || fs[|fs| - 1] != "" then fs
    else DropTrailingEmpty(fs[..|fs| - 1])
  }

  /**
   * `s.split(d)`: the fields of `s`, without the trailing empty ones; a string
   * without any delimiter (the empty string included) gives itself.
   */
  function Split(s: string, d: char): seq<string>
  {
    if s == "" then [""] else DropTrailingEmpty(Fields(s, d))
  }

  /**
   * `s.split(d, limit)` for a positive limit: at most `limit` fields, the
   * last of which is the rest of the string, delimiters included; empty
   * fields are kept.
   */
  function SplitLimit(s: string, d: char, limit: nat): seq<string>
    requires limit >= 1
  {
    var fs := Fields(s, d);
    if |fs| <= limit then fs else fs[..limit - 1] + [Join(fs[limit - 1..], d)]
  }

  /** The index of the first `d` in `s` at or after `from`, or `|s|` when there is none. */
  function NextSep(s: string, d: char, from: nat): (k: nat)
    requires from <= |s|
    ensures from <= k <= |s|
    ensures d !in s[from..k]
    ensures k < |s| ==> s[k] == d
    decreases |s| - from
  {
    if from == |s| || s[from] == d then from
    else
      var k := NextSep(s, d, from + 1);
      assert s[from..k] == [s[from]] + s[from + 1..k];
      k
  }

  // ---------------------------------------------------------------------
  // Lemmas
  // ---------------------------------------------------------------------

  /**
   * The fields of the text from `from` on: the first runs up to the next
   * delimiter, and the others are the fields of the text after it.
   */
  lemma {:induction false} FieldsFrom(s: string, d: char, from: nat)
    requires from <= |s|
    ensures Fields(s[from..], d)[0] == s[from..NextSep(s, d, from)]
    ensures NextSep(s, d, from) == |s| ==> |Fields(s[from..], d)| == 1
    ensures NextSep(s, d, from) < |s| ==> Fields(s[from..], d)[1..] == Fields(s[NextSep(s, d, from) + 1..], d)
    decreases |s| - from
  {
    if from < |s| {
      var t := s[from..];
      assert t[0] == s[from] && t[1..] == s[from + 1..];
      var rest := Fields(s[from + 1..], d);
      if s[from] == d {
        assert Fields(t, d) == [""] + rest;
      } else {
        FieldsFrom(s, d, from + 1);
        var k := NextSep(s, d, from + 1);
        assert NextSep(s, d, from) == k;
        assert Fields(t, d) == [[s[from]] + rest[0]] + rest[1..];
        assert s[from..k] == [s[from]] + s[from + 1..k];
      }
    }
  }

  /**
   * `split(d)` by positions: its first field is the text before the first
   * delimiter, its second the text between the first and the second.  It
   * has no field only when the text starts with the delimiter.
   */
  lemma SplitAt(s: string, d: char)
    ensures var i := NextSep(s, d, 0);
      && (|Split(s, d)| >= 1 ==> Split(s, d)[0] == s[..i])
      && (|Split(s, d)| == 0 ==> s != "" && i == 0)
      && (|Split(s, d)| >= 2 ==> i < |s| && Split(s, d)[1] == s[i + 1..NextSep(s, d, i + 1)])
  {
    FieldsFrom(s, d, 0);
    assert s[0..] == s;
    var i := NextSep(s, d, 0);
    if |Split(s, d)| >= 2 {
      FieldsFrom(s, d, i + 1);
      assert s[i + 1..][0..] == s[i + 1..];
    }
  }

  /**
   * `split(d, 3)` by positions: the text before the first delimiter, the
   * text between the first and the second, and everything after the second.
   */
  lemma SplitLimitThreeAt(s: string, d: char)
    ensures var i := NextSep(s, d, 0);
      var f := SplitLimit(s, d, 3);
      && |f| >= 1 && f[0] == s[..i]
      && (|f| >= 2 <==> i < |s|)
      && (i < |s| ==> var j := NextSep(s, d, i + 1);
           && f[1] == s[i + 1..j]
           && (|f| == 3 <==> j < |s|)
           && (j < |s| ==> f[2] == s[j + 1..]))
  {
    FieldsFrom(s, d, 0);
    assert s[0..] == s;
    var i := NextSep(s, d, 0);
    if i < |s| {
      FieldsTail(s, d, i);
    }
  }

  /** The fields after the first delimiter, at index `i`, by positions. */
  lemma FieldsTail(s: string, d: char, i: nat)
    requires i < |s| && i == NextSep(s, d, 0)
    ensures var fs := Fields(s, d);
      var j := NextSep(s, d, i + 1);
      && |fs| >= 2 && fs[1] == s[i + 1..j]
      && (|fs| >= 3 <==> j < |s|)
      && (j < |s| ==> Join(fs[2..], d) == s[j + 1..])
  {
    FieldsFrom(s, d, 0);
    assert s[0..] == s;
    FieldsFrom(s, d, i + 1);
    var j := NextSep(s, d, i + 1);
    var fs := Fields(s, d);
    assert fs[1..] == Fields(s[i + 1..], d);
    assert s[i + 1..][0..] == s[i + 1..];
    if j < |s| {
      assert s[i + 1..][j - i..] == s[j + 1..];
      assert fs[2..] == Fields(s[i + 1..], d)[1..];
      JoinOfFields(s[j + 1..], d);
    }
  }

  /** When `split(d)` has two fields, `split(d, 3)` agrees with it on them. */
  lemma SplitLimitAgrees(s: string, d: char)
    requires |Split(s, d)| >= 2
    ensures |SplitLimit(s, d, 3)| >= 2
    ensures SplitLimit(s, d, 3)[..2] == Split(s, d)[..2]
  {
    SplitAt(s, d);
    SplitLimitThreeAt(s, d);
  }

  /**
   * When `split(d)` has fewer than two fields, the second field of
   * `split(d, 3)`, if there is one, is empty.
   */
  lemma SplitLimitEmptySecond(s: string, d: char)
    requires |Split(s, d)| < 2
    ensures |SplitLimit(s, d, 3)| >= 2 ==> SplitLimit(s, d, 3)[1] == ""
  {
    if |SplitLimit(s, d, 3)| >= 2 {
      var fs := Fields(s, d);
      assert s != "";
      assert SplitLimit(s, d, 3)[1] == fs[1];
    }
  }

  /** A string without the delimiter is a single field. */
  lemma {:induction false} FieldsOfPlain(s: string, d: char)
    requires d !in s
    ensures Fields(s, d) == [s]
  {
    if |s| > 0 {
      FieldsOfPlain(s[1..], d);
      assert s == [s[0]] + s[1..];
    }
  }

  /** A leading field ends at the first delimiter. */
  lemma {:induction false} FieldsOfLeading(a: string, d: char, rest: string)
    requires d !in a
    ensures Fields(a + [d] + rest, d) == [a] + Fields(rest, d)
  {
    var s := a + [d] + rest;
    if |a| == 0 {
      assert s[1..] == rest;
    } else {
      assert s[1..] == a[1..] + [d] + rest;
      FieldsOfLeading(a[1..], d, rest);
      assert [a[0]] + a[1..] == a;
    }
  }

  /** Splitting a join gives back the fields when none holds the delimiter. */
  lemma {:induction false} FieldsOfJoin(fs: seq<string>, d: char)
    requires |fs| >= 1 && FreeOf(fs, d)
    ensures Fields(Join(fs, d), d) == fs
  {
    if |fs| == 1 {
      FieldsOfPlain(fs[0], d);
    } else {
      FieldsOfJoin(fs[1..], d);
      FieldsOfLeading(fs[0], d, Join(fs[1..], d));
      assert [fs[0]] + fs[1..] == fs;
    }
  }

  /** Joining the fields of a string gives back the string. */
  lemma {:induction false} JoinOfFields(s: string, d: char)
    ensures Join(Fields(s, d), d) == s
  {
    if |s| > 0 {
      JoinOfFields(s[1..], d);
      var rest := Fields(s[1..], d);
      if s[0] == d {
        assert ([""] + rest)[1..] == rest;
        assert s == [s[0]] + s[1..];
      } else if |rest| == 1 {
        assert s == [s[0]] + s[1..];
      } else {
        var fs := [[s[0]] + rest[0]] + rest[1..];
        assert fs[1..] == rest[1..];
        assert s == [s[0]] + s[1..];
      }
    }
  }

  /** No field produced by `Fields` holds the delimiter. */
  lemma {:induction false} FieldsFreeOf(s: string, d: char)
    ensures FreeOf(Fields(s, d), d)
  {
    if |s| > 0 {
      FieldsFreeOf(s[1..], d);
    }
  }

  /** Appending one more field to a join. */
  lemma {:induction false} JoinSnoc(fs: seq<string>, x: string, d: char)
    requires |fs| >= 1
    ensures Join(fs + [x], d) == Join(fs, d) + [d] + x
  {
    if |fs| > 1 {
      assert (fs + [x])[1..] == fs[1..] + [x];
      JoinSnoc(fs[1..], x, d);
    }
  }

  /** `split` of a join of delimiter-free fields whose last one is not empty. */
  lemma SplitOfJoin(fs: seq<string>, d: char)
    requires |fs| >= 1 && FreeOf(fs, d) && fs[|fs| - 1] != ""
    ensures Split(Join(fs, d), d) == fs
  {
    FieldsOfJoin(fs, d);
    if Join(fs, d) == "" {
      assert Fields("", d) == [""];
    }
  }

  /** `split(d, 3)` of `a_b_c` where `a` and `b` hold no delimiter; `c` may. */
  lemma SplitLimitThree(a: string, b: string, c: string, d: char)
    requires d !in a && d !in b
    ensures SplitLimit(a + [d] + b + [d] + c, d, 3) == [a, b, c]
  {
    FieldsOfLeading(b, d, c);
    assert a + [d] + b + [d] + c == a + [d] + (b + [d] + c);
    FieldsOfLeading(a, d, b + [d] + c);
    var fs := Fields(a + [d] + b + [d] + c, d);
    assert fs == [a, b] + Fields(c, d);
    assert fs[..2] == [a, b] && fs[2..] == Fields(c, d);
    JoinOfFields(c, d);
  }
}
