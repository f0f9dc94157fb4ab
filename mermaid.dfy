/**
  The Markdown preprocessor that turns fenced Mermaid blocks into diagram markup
  (app/api/v1/templates/MermaidExtension.py).

  Outside a block every line is passed through. A line such as "```mermaid" or
  "~~~ Mermaid" opens a block: it is replaced by the opening `<div class="mermaid">`
  (after an extra empty line when the line before was not blank). The lines of the block
  are buffered, and a line of exactly three copies of the opening sign (plus blanks)
  closes it: the buffered lines, joined with newlines, are rendered, and the rendered
  text, `</div>` and an empty line are emitted. The diagram renderer is a network call
  into an external library and is a parameter here.
 */
module Mermaid {
  import opened Wrappers
  import opened Text

  // ---------------------------------------------------------------------------
  // strip_notprintable
  // ---------------------------------------------------------------------------

  /** Python's `string.printable`: digits, letters, punctuation and whitespace, in that order (100 characters). */
  const Printable: string :=
    "0123456789abcdefghijklmnopqrstuvwxyzABCDEFGHIJKLMNOPQRSTUVWXYZ"
    + "!\"#$%&'()*+,-./:;<=>?@[\\]^_`{|}~"
    + " \t\n\r\U{000B}\U{000C}"

  predicate IsPrintable(c: char)
  {
    c in Printable
  }

  /** `strip_notprintable`: keeps the printable characters, in order. */
  function StripNotPrintable(s: string): (r: string)
    ensures |r| <= |s|
    ensures forall i :: 0 <= i < |r| ==> IsPrintable(r[i])
  {
    if s == [] then []
    else (if IsPrintable(s[0]) then [s[0]] else []) + StripNotPrintable(s[1..])
  }

  /** Filtering a concatenation filters each part: the kept characters keep their order. */
  lemma {:induction false} StripNotPrintableConcat(a: string, b: string)
    ensures StripNotPrintable(a + b) == StripNotPrintable(a) + StripNotPrintable(b)
  {
    if a != [] {
      assert (a + b)[0] == a[0];
      assert (a + b)[1..] == a[1..] + b;
      StripNotPrintableConcat(a[1..], b);
      var head := if IsPrintable(a[0]) then [a[0]] else [];
      assert StripNotPrintable(a + b) == head + (StripNotPrintable(a[1..]) + StripNotPrintable(b));
      assert head + (StripNotPrintable(a[1..]) + StripNotPrintable(b))
             == (head + StripNotPrintable(a[1..])) + StripNotPrintable(b);
    } else {
      assert a + b == b;
    }
  }

  /** Every printable character occurs as often in the result as in the input; nothing else occurs. */
  lemma {:induction false} StripNotPrintableCounts(s: string, c: char)
    ensures multiset(StripNotPrintable(s))[c] == if IsPrintable(c) then multiset(s)[c] else 0
  {
    if s != [] {
      StripNotPrintableCounts(s[1..], c);
      var head := if IsPrintable(s[0]) then [s[0]] else [];
      assert StripNotPrintable(s) == head + StripNotPrintable(s[1..]);
      assert multiset(StripNotPrintable(s)) == multiset(head) + multiset(StripNotPrintable(s[1..]));
      assert s == [s[0]] + s[1..];
      assert multiset(s) == multiset([s[0]]) + multiset(s[1..]);
    }
  }

  /** The filter is the identity exactly on all-printable strings. */
  lemma {:induction false} StripNotPrintableIdentity(s: string)
    ensures StripNotPrintable(s) == s <==> forall i :: 0 <= i < |s| ==> IsPrintable(s[i])
  {
    if forall i :: 0 <= i < |s| ==> IsPrintable(s[i]) {
      if s != [] {
        assert forall i :: 0 <= i < |s[1..]| ==> IsPrintable(s[1..][i]) by {
          forall i | 0 <= i < |s[1..]| ensures IsPrintable(s[1..][i]) {
            assert s[1..][i] == s[i + 1];
          }
        }
        StripNotPrintableIdentity(s[1..]);
        assert [s[0]] + s[1..] == s;
      }
    }
  }

  /** Filtering twice is filtering once. */
  lemma StripNotPrintableIdempotent(s: string)
    ensures StripNotPrintable(StripNotPrintable(s)) == StripNotPrintable(s)
  {
    StripNotPrintableIdentity(StripNotPrintable(s));
  }

  // ---------------------------------------------------------------------------
  // Fences: MermaidRegex and the closing expression built from the sign
  // ---------------------------------------------------------------------------

  /** The class `[\~\`]` of fence characters. */
  predicate IsFenceChar(c: char)
  {
    c == '~' || c == '`'
  }

  predicate IsMermaidWord(w: string)
  {
    w == "mermaid" || w == "Mermaid"
  }

  /**
    `MermaidRegex.match(line)` with its `mermaid_sign` group:
    `^([\~\`]){3}[\ \t]*[Mm]ermaid[\ \t]*$`. The group is repeated, so the three fence
    characters need not be equal and the captured sign is the third one.
   */
  function OpeningSign(line: string): (r: Option<char>)
    ensures r.Some? ==> |line| >= 10 && IsFenceChar(line[0]) && IsFenceChar(line[1])
                        && IsFenceChar(r.value) && r.value == line[2]
  {
    if |line| >= 3 && IsFenceChar(line[0]) && IsFenceChar(line[1]) && IsFenceChar(line[2])
       && IsMermaidWord(TrimEnd(TrimStart(line[3..])))
    then Some(line[2])
    else None
  }

  /** Every line of the shape fence, blanks, `[Mm]ermaid`, blanks opens a block with the third fence character as sign. */
  lemma OpeningFenceAccepted(fence: string, lead: string, word: string, trail: string)
    requires |fence| == 3 && IsFenceChar(fence[0]) && IsFenceChar(fence[1]) && IsFenceChar(fence[2])
    requires IsBlank(lead) && IsMermaidWord(word) && IsBlank(trail)
    ensures OpeningSign(fence + lead + word + trail) == Some(fence[2])
  {
    var line := fence + lead + word + trail;
    assert line[3..] == lead + (word + trail);
    TrimStartOf(lead, word + trail);
    TrimEndOf(word, trail);
  }

  /** Conversely, a line that opens a block has exactly that shape. */
  lemma OpeningFenceShape(line: string) returns (lead: string, word: string, trail: string)
    requires OpeningSign(line).Some?
    ensures line[3..] == lead + word + trail
    ensures IsBlank(lead) && IsMermaidWord(word) && IsBlank(trail)
  {
    var rest := line[3..];
    var t := TrimStart(rest);
    var k := |rest| - |t|;
    TrimStartSpec(rest);
    word := TrimEnd(t);
    TrimEndSpec(t);
    lead := rest[..k];
    trail := t[|word|..];
    assert t == rest[k..];
    assert rest == lead + t;
    assert word == t[..|word|];
    assert t == word + trail;
    ConcatAssoc(lead, word, trail);
  }

  /** `re.match("^[" + sign + "]{3}[\ \t]*$", line)`: three copies of the sign, then blanks only. */
  predicate IsClosing(line: string, sign: char)
  {
    |line| >= 3 && line[0] == sign && line[1] == sign && line[2] == sign && IsBlank(line[3..])
  }

  /**
    The closing expression accepts exactly three copies of the sign followed by blanks;
    in particular a line of three copies of another character does not close the block.
   */
  lemma ClosingFence(line: string, sign: char)
    ensures IsClosing(line, sign) <==> exists ws :: IsBlank(ws) && line == [sign, sign, sign] + ws
    ensures forall other :: other != sign && IsClosing(line, sign) ==> !IsClosing(line, other)
  {
    if IsClosing(line, sign) {
      assert line == [sign, sign, sign] + line[3..];
    }
    if exists ws :: IsBlank(ws) && line == [sign, sign, sign] + ws {
      var ws :| IsBlank(ws) && line == [sign, sign, sign] + ws;
      assert line[3..] == ws;
    }
  }

  /** A closing fence never opens a block, so outside a block it is ordinary text. */
  lemma ClosingIsNotOpening(line: string, sign: char)
    requires IsClosing(line, sign)
    ensures OpeningSign(line) == None
  {
    TrimStartOf(line[3..], "");
    assert line[3..] + "" == line[3..];
  }

  // ---------------------------------------------------------------------------
  // Sequence regrouping: proof steps only, they stand for nothing in the source
  // ---------------------------------------------------------------------------

  lemma ConcatAssoc<T>(a: seq<T>, b: seq<T>, c: seq<T>)
    ensures a + (b + c) == (a + b) + c
  {
  }

  lemma SplitBlockInput(pre: seq<string>, opener: string, body: seq<string>, closer: string, post: seq<string>)
    ensures pre + [opener] + body + [closer] + post == pre + ([opener] + (body + ([closer] + post)))
  {
  }

  lemma RegroupBlock(pre: seq<string>, lead: seq<string>, block: seq<string>, after: seq<string>)
    ensures pre + ((lead + [DivOpen]) + (block + after)) == pre + lead + ([DivOpen] + block) + after
  {
  }

  // ---------------------------------------------------------------------------
  // MermaidPreprocessor.run
  // ---------------------------------------------------------------------------

  const DivOpen: string := "<div class=\"mermaid\">"
  const DivClose: string := "</div>"

  /** Where the scan is: in ordinary text, or inside a block opened with `sign` whose lines so far are `body`. */
  datatype Mode = Text | Diagram(sign: char, body: seq<string>)

  /** The empty line put before an opening `<div>` when the previous input line was not blank. */
  function Lead(prev: string): (r: seq<string>)
    ensures r == [] <==> IsBlank(prev)
  {
    if IsBlank(prev) then [] else [""]
  }

  /**
    The output for the remaining `lines`, given the mode and the previous input line.
    An unclosed block at the end of the input produces nothing more: its lines are lost.
   */
  function Rest(mode: Mode, prev: string, lines: seq<string>, render: string -> string): seq<string>
    decreases |lines|
  {
    if lines == [] then []
    else
      var line := lines[0];
      match mode
      case Text =>
        (match OpeningSign(line)
         case Some(s) => Lead(prev) + [DivOpen] + Rest(Diagram(s, []), line, lines[1..], render)
         case None => [line] + Rest(Text, line, lines[1..], render))
      case Diagram(s, body) =>
        if IsClosing(line, s) then
          [render(Join(body, '\n')), DivClose, ""] + Rest(Text, line, lines[1..], render)
        else
          Rest(Diagram(s, body + [line]), line, lines[1..], render)
  }

  /** The output of `run` on a whole document; the line before the first is taken as "". */
  function Preprocess(lines: seq<string>, render: string -> string): seq<string>
  {
    Rest(Text, "", lines, render)
  }

  /** The mode the source's variables `in_mermaid_code`, `mermaid_sign` and `mermaid_lines` stand for. */
  function ModeOf(inMermaidCode: bool, sign: char, body: seq<string>): Mode
  {
    if inMermaidCode then Diagram(sign, body) else Text
  }

  /** One line of the scan: what it emits and the mode it leaves behind. */
  function Step(mode: Mode, prev: string, line: string, render: string -> string): (Mode, seq<string>)
  {
    match mode
    case Text =>
      (match OpeningSign(line)
       case Some(s) => (Diagram(s, []), Lead(prev) + [DivOpen])
       case None => (Text, [line]))
    case Diagram(s, body) =>
      if IsClosing(line, s) then (Text, [render(Join(body, '\n')), DivClose, ""])
      else (Diagram(s, body + [line]), [])
  }

  lemma RestStep(mode: Mode, prev: string, lines: seq<string>, render: string -> string)
    requires lines != []
    ensures Rest(mode, prev, lines, render)
            == Step(mode, prev, lines[0], render).1 + Rest(Step(mode, prev, lines[0], render).0, lines[0], lines[1..], render)
  {
    if mode.Diagram? && !IsClosing(lines[0], mode.sign) {
      assert [] + Rest(Diagram(mode.sign, mode.body + [lines[0]]), lines[0], lines[1..], render)
             == Rest(Diagram(mode.sign, mode.body + [lines[0]]), lines[0], lines[1..], render);
    }
  }

  /** `MermaidPreprocessor.run`: one pass over the lines with the source's state variables. */
  method Run(lines: seq<string>, render: string -> string) returns (newLines: seq<string>)
    ensures newLines == Preprocess(lines, render)
  {
    var oldLine := "";
    newLines := [];
    var mermaidSign := '`';  // meaningful only while inMermaidCode holds
    var mStart: Option<char> := None;
    var mEnd := false;
    var mermaidLines: seq<string> := [];
    var inMermaidCode := false;
    var isMermaid := false;  // set on the first block; has no effect on the output
    assert lines[0..] == lines;
    for i := 0 to |lines|
      invariant mStart == None && !mEnd
      invariant !inMermaidCode ==> mermaidLines == []
      invariant newLines + Rest(ModeOf(inMermaidCode, mermaidSign, mermaidLines), oldLine, lines[i..], render)
                == Preprocess(lines, render)
    {
      var line := lines[i];
      RestStep(ModeOf(inMermaidCode, mermaidSign, mermaidLines), oldLine, lines[i..], render);
      assert lines[i..][0] == line && lines[i..][1..] == lines[i + 1..];
      ghost var emitted := newLines;
      ghost var step := Step(ModeOf(inMermaidCode, mermaidSign, mermaidLines), oldLine, line, render);
      if !inMermaidCode {
        mStart := OpeningSign(line);
      } else {
        mEnd := IsClosing(line, mermaidSign);
        if mEnd {
          inMermaidCode := false;
        }
      }

      if mStart.Some? {
        inMermaidCode := true;
        mermaidSign := mStart.value;
        if !IsBlank(oldLine) {
          newLines := newLines + [""];
        }
        if !isMermaid {
          isMermaid := true;
        }
        newLines := newLines + [DivOpen];
        assert newLines == emitted + Lead(oldLine) + [DivOpen];
        mStart := None;
      } else if mEnd {
        newLines := newLines + [render(Join(mermaidLines, '\n')), DivClose, ""];
        mEnd := false;
        mermaidLines := [];
      } else if inMermaidCode {
        mermaidLines := mermaidLines + [line];
      } else {
        newLines := newLines + [line];
      }
      oldLine := line;
      assert ModeOf(inMermaidCode, mermaidSign, mermaidLines) == step.0;
      assert newLines == emitted + step.1;
      ConcatAssoc(emitted, step.1, Rest(step.0, line, lines[i + 1..], render));
    }
    assert lines[|lines|..] == [];
  }

  // ---------------------------------------------------------------------------
  // Properties of the preprocessor
  // ---------------------------------------------------------------------------

  /** The last line of `pre`, or `prev` when `pre` is empty. */
  function LastOr(prev: string, pre: seq<string>): string
  {
    if pre == [] then prev else pre[|pre| - 1]
  }

  predicate NoOpening(lines: seq<string>)
  {
    forall i :: 0 <= i < |lines| ==> OpeningSign(lines[i]) == None
  }

  predicate NoClosing(lines: seq<string>, sign: char)
  {
    forall i :: 0 <= i < |lines| ==> !IsClosing(lines[i], sign)
  }

  /** Lines outside a block are emitted unchanged and in order. */
  lemma {:induction false} TextPassesThrough(pre: seq<string>, rest: seq<string>, prev: string, render: string -> string)
    requires NoOpening(pre)
    ensures Rest(Text, prev, pre + rest, render) == pre + Rest(Text, LastOr(prev, pre), rest, render)
  {
    if pre != [] {
      var lines := pre + rest;
      assert lines[0] == pre[0];
      assert lines[1..] == pre[1..] + rest;
      TextPassesThrough(pre[1..], rest, pre[0], render);
      assert LastOr(pre[0], pre[1..]) == LastOr(prev, pre);
      assert [pre[0]] + pre[1..] == pre;
    } else {
      assert pre + rest == rest;
    }
  }

  /**
    The first opening fence becomes `<div class="mermaid">`, preceded by one empty line exactly
    when the input line before it exists and is not blank; the lines before it are output as they are.
   */
  lemma FirstFenceLead(pre: seq<string>, opener: string, rest: seq<string>, render: string -> string)
    requires NoOpening(pre)
    requires OpeningSign(opener).Some?
    ensures var out := Preprocess(pre + [opener] + rest, render);
            var lead := pre != [] && !IsBlank(pre[|pre| - 1]);
            |out| >= |pre| + 1 && out[..|pre|] == pre
            && (out[|pre|] == "" <==> lead)
            && (if lead then |out| >= |pre| + 2 && out[|pre| + 1] == DivOpen else out[|pre|] == DivOpen)
  {
    var s := OpeningSign(opener).value;
    var tail := [opener] + rest;
    assert pre + [opener] + rest == pre + tail;
    TextPassesThrough(pre, tail, "", render);
    var p := LastOr("", pre);
    OpenStep(p, opener, s, rest, render);
    var after := Rest(Diagram(s, []), opener, rest, render);
    var out := pre + ((Lead(p) + [DivOpen]) + after);
    assert Preprocess(pre + [opener] + rest, render) == out;
    assert out[..|pre|] == pre;
    assert out[|pre|..] == Lead(p) + [DivOpen] + after;
    assert IsBlank("");
    assert DivOpen != "" by { assert |DivOpen| > 0; }
  }

  /** A document without an opening fence comes back unchanged. */
  lemma WithoutFenceUnchanged(lines: seq<string>, render: string -> string)
    requires NoOpening(lines)
    ensures Preprocess(lines, render) == lines
  {
    TextPassesThrough(lines, [], "", render);
    assert lines + [] == lines;
  }

  /**
    Inside a block, every line that does not close it is buffered, not emitted, even one
    that looks like an opening fence: blocks do not nest.
   */
  lemma {:induction false} BodyIsBuffered(body: seq<string>, rest: seq<string>, sign: char, acc: seq<string>,
                                          prev: string, render: string -> string)
    requires NoClosing(body, sign)
    ensures Rest(Diagram(sign, acc), prev, body + rest, render)
            == Rest(Diagram(sign, acc + body), LastOr(prev, body), rest, render)
  {
    if body != [] {
      var lines := body + rest;
      assert lines[0] == body[0];
      assert lines[1..] == body[1..] + rest;
      BodyIsBuffered(body[1..], rest, sign, acc + [body[0]], body[0], render);
      assert acc + [body[0]] + body[1..] == acc + body;
      assert LastOr(body[0], body[1..]) == LastOr(prev, body);
    } else {
      assert body + rest == rest;
      assert acc + body == acc;
    }
  }

  /**
    One closed block: the text before it passes through, the opening fence becomes the
    `<div>` (after an empty line when the preceding line is not blank), the body is
    rendered once, joined with newlines, followed by `</div>` and an empty line, and the
    scan resumes in text mode with an empty buffer.
   */
  lemma ClosedBlock(pre: seq<string>, opener: string, body: seq<string>, closer: string, post: seq<string>,
                    prev: string, render: string -> string)
    requires NoOpening(pre)
    requires OpeningSign(opener).Some?
    requires NoClosing(body, OpeningSign(opener).value)
    requires IsClosing(closer, OpeningSign(opener).value)
    ensures Rest(Text, prev, pre + [opener] + body + [closer] + post, render)
            == pre + Lead(LastOr(prev, pre)) + [DivOpen, render(Join(body, '\n')), DivClose, ""]
               + Rest(Text, closer, post, render)
  {
    var s := OpeningSign(opener).value;
    var cp := [closer] + post;
    var tail := [opener] + (body + cp);
    var p := LastOr(prev, pre);
    var block := [render(Join(body, '\n')), DivClose, ""];
    var after := Rest(Text, closer, post, render);
    SplitBlockInput(pre, opener, body, closer, post);
    TextPassesThrough(pre, tail, prev, render);
    OpenStep(p, opener, s, body + cp, render);
    BodyIsBuffered(body, cp, s, [], opener, render);
    assert [] + body == body;
    CloseStep(s, body, LastOr(opener, body), closer, post, render);
    RegroupBlock(pre, Lead(p), block, after);
  }

  /** An opening fence in text mode emits the `<div>` and starts an empty block. */
  lemma OpenStep(prev: string, opener: string, s: char, rest: seq<string>, render: string -> string)
    requires OpeningSign(opener) == Some(s)
    ensures Rest(Text, prev, [opener] + rest, render) == (Lead(prev) + [DivOpen]) + Rest(Diagram(s, []), opener, rest, render)
  {
    assert ([opener] + rest)[0] == opener && ([opener] + rest)[1..] == rest;
  }

  /** A closing fence renders the buffered block and returns to text mode. */
  lemma CloseStep(s: char, body: seq<string>, prev: string, closer: string, post: seq<string>, render: string -> string)
    requires IsClosing(closer, s)
    ensures Rest(Diagram(s, body), prev, [closer] + post, render)
            == [render(Join(body, '\n')), DivClose, ""] + Rest(Text, closer, post, render)
  {
    assert ([closer] + post)[0] == closer && ([closer] + post)[1..] == post;
  }


  /** A block left open at the end of the input emits its `<div>` but no `</div>`, and its lines are lost. */
  lemma UnclosedBlock(pre: seq<string>, opener: string, body: seq<string>, prev: string, render: string -> string)
    requires NoOpening(pre)
    requires OpeningSign(opener).Some?
    requires NoClosing(body, OpeningSign(opener).value)
    ensures Rest(Text, prev, pre + [opener] + body, render) == pre + Lead(LastOr(prev, pre)) + [DivOpen]
  {
    var s := OpeningSign(opener).value;
    var tail := [opener] + body;
    assert pre + [opener] + body == pre + tail;
    TextPassesThrough(pre, tail, prev, render);
    assert tail[0] == opener && tail[1..] == body;
    BodyIsBuffered(body, [], s, [], opener, render);
    assert body + [] == body;
  }

  /** The bare word "mermaid" survives both trims unchanged. */
  lemma BareWordTrims()
    ensures TrimEnd(TrimStart("mermaid")) == "mermaid"
  {
    TrimStartOf("", "mermaid");
    assert "" + "mermaid" == "mermaid";
    TrimEndOf("mermaid", "");
    assert "mermaid" + "" == "mermaid";
  }

  /** A backtick fence does not close a tilde block: it becomes part of the diagram source. */
  lemma TildeBlockKeepsBacktickFence(render: string -> string)
    ensures Preprocess(["~~~mermaid", "```", "~~~"], render) == [DivOpen, render("```"), DivClose, ""]
  {
    var opener := "~~~mermaid";
    assert opener[3..] == "mermaid";
    BareWordTrims();
    assert OpeningSign(opener) == Some('~');
    assert !IsClosing("```", '~');
    assert IsClosing("~~~", '~');
    var body: seq<string> := ["```"];
    var lines := [opener] + body + ["~~~"];
    assert lines == ["~~~mermaid", "```", "~~~"];
    assert NoClosing(body, '~');
    ClosedBlock([], opener, body, "~~~", [], "", render);
    assert [] + [opener] + body + ["~~~"] + [] == lines;
    assert Lead(LastOr("", [])) == [];
    assert Join(body, '\n') == "```";
    assert Rest(Text, "~~~", [], render) == [];
  }

  /** A fence after a text line gets the extra empty line; the text line itself is kept. */
  lemma FenceAfterText(render: string -> string)
    ensures Preprocess(["Intro", "```mermaid", "A-->B", "```"], render)
            == ["Intro", "", DivOpen, render("A-->B"), DivClose, ""]
  {
    var opener := "```mermaid";
    assert opener[3..] == "mermaid";
    BareWordTrims();
    assert OpeningSign(opener) == Some('`');
    assert OpeningSign("Intro") == None;
    assert IsClosing("```", '`');
    assert !IsBlank("Intro") by { assert !IsSpaceOrTab("Intro"[0]); }
    var body: seq<string> := ["A-->B"];
    var lines := ["Intro"] + [opener] + body + ["```"];
    assert lines == ["Intro", "```mermaid", "A-->B", "```"];
    assert NoOpening(["Intro"]);
    assert NoClosing(body, '`');
    ClosedBlock(["Intro"], opener, body, "```", [], "", render);
    assert lines + [] == lines;
    assert Lead(LastOr("", ["Intro"])) == [""];
    assert Join(body, '\n') == "A-->B";
    assert Rest(Text, "```", [], render) == [];
  }
}
