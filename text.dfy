/**
  String helpers shared by the models: Python's `sep.join(parts)` for a one-character
  separator, its inverse `s.split(sep)`, and the `[\ \t]*` blank runs of the regular
  expressions used by the Mermaid preprocessor.
 */
module Text {

  /** `sep.join(parts)`: the parts with one separator between neighbours, none at the end. */
  function Join(parts: seq<string>, sep: char): string
  {
    if |parts| == 0 then ""
    else if |parts| == 1 then parts[0]
    else parts[0] + [sep] + Join(parts[1..], sep)
  }

  /** `s.split(sep)`: the maximal pieces of `s` between separators (always at least one). */
  function Split(s: string, sep: char): (r: seq<string>)
    ensures |r| >= 1
  {
    if s == [] then [""]
    else
      var tail := Split(s[1..], sep);
      if s[0] == sep then [""] + tail
      else [[s[0]] + tail[0]] + tail[1..]
  }

  predicate NoSep(s: string, sep: char)
  {
    forall i :: 0 <= i < |s| ==> s[i] != sep
  }

  /** A concatenation holds the separator only where a part does. */
  lemma NoSepConcat(a: string, b: string, sep: char)
    requires NoSep(a, sep) && NoSep(b, sep)
    ensures NoSep(a + b, sep)
  {
    forall i | 0 <= i < |a + b| ensures (a + b)[i] != sep {
      if i >= |a| {
        assert (a + b)[i] == b[i - |a|];
      }
    }
  }

  /** A piece without the separator is a single piece. */
  lemma {:induction false} SplitNoSep(s: string, sep: char)
    requires NoSep(s, sep)
    ensures Split(s, sep) == [s]
  {
    if s != [] {
      SplitNoSep(s[1..], sep);
      assert s[0] != sep;
      assert [s[0]] + s[1..] == s;
    }
  }

  /** Splitting `p + sep + rest` cuts exactly after `p` when `p` holds no separator. */
  lemma {:induction false} SplitAfterPiece(p: string, sep: char, rest: string)
    requires NoSep(p, sep)
    ensures Split(p + [sep] + rest, sep) == [p] + Split(rest, sep)
  {
    if p == [] {
      assert p + [sep] + rest == [sep] + rest;
      assert ([sep] + rest)[1..] == rest;
    } else {
      var s := p + [sep] + rest;
      assert s[0] == p[0];
      assert s[1..] == p[1..] + [sep] + rest;
      SplitAfterPiece(p[1..], sep, rest);
      assert [p[0]] + p[1..] == p;
    }
  }

  /** Round trip: splitting a join gives back the parts, when no part holds the separator. */
  lemma {:induction false} SplitJoin(parts: seq<string>, sep: char)
    requires |parts| >= 1
    requires forall i :: 0 <= i < |parts| ==> NoSep(parts[i], sep)
    ensures Split(Join(parts, sep), sep) == parts
  {
    if |parts| == 1 {
      SplitNoSep(parts[0], sep);
    } else {
      SplitJoin(parts[1..], sep);
      SplitAfterPiece(parts[0], sep, Join(parts[1..], sep));
      assert [parts[0]] + parts[1..] == parts;
    }
  }

  /** A space or a tab: the class `[\ \t]`. */
  predicate IsSpaceOrTab(c: char)
  {
    c == ' ' || c == '\t'
  }

  /** The whole string matches `^[\ \t]*$`. */
  predicate IsBlank(s: string)
  {
    forall i :: 0 <= i < |s| ==> IsSpaceOrTab(s[i])
  }

  /** Drops the longest blank prefix (the greedy `[\ \t]*` at the front). */
  function TrimStart(s: string): (r: string)
    ensures |r| <= |s|
  {
    if s != [] && IsSpaceOrTab(s[0]) then TrimStart(s[1..]) else s
  }

  /** Drops the longest blank suffix (the `[\ \t]*$` at the back). */
  function TrimEnd(s: string): (r: string)
    ensures |r| <= |s|
  {
    if s != [] && IsSpaceOrTab(s[|s| - 1]) then TrimEnd(s[..|s| - 1]) else s
  }

  /** TrimStart keeps a suffix, drops only blanks, and stops at the first non-blank character. */
  lemma {:induction false} TrimStartSpec(s: string)
    ensures TrimStart(s) == s[|s| - |TrimStart(s)|..]
    ensures IsBlank(s[..|s| - |TrimStart(s)|])
    ensures TrimStart(s) == [] || !IsSpaceOrTab(TrimStart(s)[0])
  {
    if s != [] && IsSpaceOrTab(s[0]) {
      TrimStartSpec(s[1..]);
      var k := |s| - |TrimStart(s)|;
      assert s[k..] == s[1..][k - 1..];
      forall i | 0 <= i < k ensures IsSpaceOrTab(s[..k][i]) {
        if i > 0 {
          assert s[..k][i] == s[1..][..k - 1][i - 1];
        }
      }
    }
  }

  /** TrimEnd keeps a prefix, drops only blanks, and stops at the last non-blank character. */
  lemma {:induction false} TrimEndSpec(s: string)
    ensures TrimEnd(s) == s[..|TrimEnd(s)|]
    ensures IsBlank(s[|TrimEnd(s)|..])
    ensures TrimEnd(s) == [] || !IsSpaceOrTab(TrimEnd(s)[|TrimEnd(s)| - 1])
  {
    if s != [] && IsSpaceOrTab(s[|s| - 1]) {
      var t := s[..|s| - 1];
      TrimEndSpec(t);
      var k := |TrimEnd(s)|;
      assert s[..k] == t[..k];
      forall i | k <= i < |s| ensures IsSpaceOrTab(s[i]) {
        if i < |s| - 1 {
          assert s[i] == t[k..][i - k];
        }
      }
    }
  }

  /** The blank prefix TrimStart drops is the only one: any blank run before a non-blank start is it. */
  lemma {:induction false} TrimStartOf(ws: string, t: string)
    requires IsBlank(ws)
    requires t == [] || !IsSpaceOrTab(t[0])
    ensures TrimStart(ws + t) == t
  {
    if ws == [] {
      assert ws + t == t;
    } else {
      assert (ws + t)[1..] == ws[1..] + t;
      TrimStartOf(ws[1..], t);
    }
  }

  /** The blank suffix TrimEnd drops is the only one. */
  lemma {:induction false} TrimEndOf(t: string, ws: string)
    requires IsBlank(ws)
    requires t == [] || !IsSpaceOrTab(t[|t| - 1])
    ensures TrimEnd(t + ws) == t
  {
    if ws == [] {
      assert t + ws == t;
    } else {
      var s := t + ws;
      assert s[|s| - 1] == ws[|ws| - 1];
      assert s[..|s| - 1] == t + ws[..|ws| - 1];
      TrimEndOf(t, ws[..|ws| - 1]);
    }
  }
}
