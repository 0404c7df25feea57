/** The stylesheet scanner `parseCss`: one forward pass over the text that
    splits it into style blocks and comment blocks. A quoted run is taken
    whole, so comment delimiters inside quotes are never seen; a comment runs
    to the first closing delimiter; unterminated quotes and comments run to
    the end of the text. */
module CssParser {
  import opened Text

  /** A block handed to `parseCss`'s callback: its type and its verbatim text. */
  datatype Segment = Style(text: string) | Comment(text: string)

  /** One step of the scan: a quoted run, a comment, or one plain character. */
  datatype Token = Quoted(text: string) | CommentRun(text: string) | Plain(c: char)
  {
    /** The characters of the stylesheet this step consumes. */
    function Span(): string {
      match this
      case Quoted(t) => t
      case CommentRun(t) => t
      case Plain(c) => [c]
    }
  }

  predicate IsQuote(c: char) {
    c == '"' || c == '\''
  }

  /** `char === '/' && css[idx + 1] === '*'`; past the end JavaScript reads `undefined`. */
  predicate OpensComment(css: string, idx: nat) {
    idx + 1 < |css| && css[idx] == '/' && css[idx + 1] == '*'
  }

  /** The end argument of `css.slice(idx, end)`: `undefined` slices to the end. */
  function SliceEnd(css: string, end: Option<nat>): nat {
    match end
    case Some(e) => e
    case None => |css|
  }

  /** Where a quoted run starting at `idx` ends: just past the next occurrence
      of the same quote character, or at the end of the text. */
  function QuoteEnd(css: string, idx: nat): (e: nat)
    requires idx < |css|
    ensures idx < e <= |css|
  {
    SliceEnd(css, IndexAfterOf(css, [css[idx]], idx + 1))
  }

  /** Where a comment starting at `idx` ends: just past the first `*` `/` found
      from two characters past its opener, or at the end of the text. */
  function CommentEnd(css: string, idx: nat): (e: nat)
    requires idx < |css|
    ensures idx < e <= |css|
  {
    SliceEnd(css, IndexAfterOf(css, "*/", idx + 2))
  }

  /** The step the scanner takes at `idx` (one iteration of the loop). */
  function TokenAt(css: string, idx: nat): (t: Token)
    requires idx < |css|
    ensures 0 < |t.Span()| <= |css| - idx
  {
    var ch := css[idx];
    if IsQuote(ch) then Quoted(css[idx..QuoteEnd(css, idx)])
    else if OpensComment(css, idx) then CommentRun(css[idx..CommentEnd(css, idx)])
    else Plain(ch)
  }

  /** A step consumes exactly the characters it carries. */
  lemma TokenAtSpan(css: string, idx: nat)
    requires idx < |css|
    ensures TokenAt(css, idx).Span() == css[idx..idx + |TokenAt(css, idx).Span()|]
  {
  }

  /** The steps the scanner takes over the text `s`, one after the other. */
  function Scan(s: string): seq<Token>
    decreases |s|
  {
    if s == [] then []
    else
      var t := TokenAt(s, 0);
      [t] + Scan(s[|t.Span()|..])
  }

  /** The blocks emitted for a pending buffer: none when it is empty. */
  function Flush(styleContent: string): seq<Segment> {
    if |styleContent| > 0 then [Style(styleContent)] else []
  }

  /** The blocks emitted for `tokens` when `styleContent` is pending: quoted
      runs and plain characters join the pending style block, a comment first
      flushes it and is then emitted on its own. */
  function GroupFrom(styleContent: string, tokens: seq<Token>): seq<Segment>
    decreases |tokens|
  {
    if tokens == [] then Flush(styleContent)
    else
      match tokens[0]
      case CommentRun(t) => Flush(styleContent) + [Comment(t)] + GroupFrom([], tokens[1..])
      case Quoted(t) => GroupFrom(styleContent + t, tokens[1..])
      case Plain(c) => GroupFrom(styleContent + [c], tokens[1..])
  }

  /** The blocks `parseCss(css, cb)` passes to `cb`, in order; together they
      spell out `css` (ParseShape). */
  function Parse(css: string): seq<Segment> {
    GroupFrom([], Scan(css))
  }

  /** The blocks still to come once the first `idx` characters are scanned
      and `styleContent` is pending, read as the token view of the rest. */
  function Pending(css: string, idx: nat, styleContent: string): seq<Segment>
    requires idx <= |css|
  {
    GroupFrom(styleContent, Scan(css[idx..]))
  }

  /** The same blocks, one iteration of the loop of `parseCss` per call
      (ParseFromPending proves the two readings agree). */
  function ParseFrom(css: string, idx: nat, styleContent: string): seq<Segment>
    requires idx <= |css|
    decreases |css| - idx
  {
    if idx == |css| then Flush(styleContent)
    else if IsQuote(css[idx]) then
      ParseFrom(css, QuoteEnd(css, idx), styleContent + css[idx..QuoteEnd(css, idx)])
    else if OpensComment(css, idx) then
      Flush(styleContent) + [Comment(css[idx..CommentEnd(css, idx)])] + ParseFrom(css, CommentEnd(css, idx), [])
    else
      ParseFrom(css, idx + 1, styleContent + [css[idx]])
  }

  /** `parseCss`, with the callback replaced by the returned sequence of blocks. */
  method ParseCss(css: string) returns (segments: seq<Segment>)
    ensures segments == Parse(css)
    ensures Texts(segments) == css
    ensures StylesNonEmpty(segments) && NoAdjacentStyles(segments)
    ensures CommentsWellFormed(segments)
  {
    var styleContent := "";
    segments := [];
    var idx := 0;
    ParseFromPending(css, 0, styleContent);
    assert css[0..] == css;
    ghost var all := Parse(css);
    while idx < |css|
      invariant idx <= |css|
      invariant segments + ParseFrom(css, idx, styleContent) == all
    {
      var ch := css[idx];
      if ch == '"' || ch == '\'' {
        var stringContent := css[idx..QuoteEnd(css, idx)];
        KeepQuoted(css, idx, styleContent, segments, all, stringContent);
        styleContent := styleContent + stringContent;
        idx := idx + |stringContent|;
      } else if ch == '/' && idx + 1 < |css| && css[idx + 1] == '*' {
        var commentContent := css[idx..CommentEnd(css, idx)];
        KeepComment(css, idx, styleContent, segments, all, commentContent);
        ghost var emitted := segments + Flush(styleContent) + [Comment(commentContent)];
        if |styleContent| > 0 {
          segments := segments + [Style(styleContent)];
          styleContent := "";
        }
        assert styleContent == [];
        segments := segments + [Comment(commentContent)];
        idx := idx + |commentContent|;
        assert segments == emitted;
      } else {
        KeepPlain(css, idx, styleContent, segments, all, ch);
        styleContent := styleContent + [ch];
        idx := idx + 1;
      }
    }
    if |styleContent| > 0 {
      segments := segments + [Style(styleContent)];
    }
    ParseShape(css);
  }

  // ---------------------------------------------------------------------------
  // One iteration of the loop

  /** One step of the scan, unfolded. */
  lemma ScanUnfold(s: string)
    requires s != []
    ensures Scan(s) == [TokenAt(s, 0)] + Scan(s[|TokenAt(s, 0).Span()|..])
  {
  }

  /** At the end of the text only the pending buffer is left to flush. */
  lemma PendingAtEnd(css: string, styleContent: string)
    ensures Pending(css, |css|, styleContent) == Flush(styleContent)
  {
    assert css[|css|..] == [];
  }

  /** The text from `idx` on, past a step of `n` characters, is the text from `idx + n` on. */
  lemma SuffixPast(css: string, idx: nat, n: nat)
    requires idx + n <= |css|
    ensures css[idx..][n..] == css[idx + n..]
  {
  }

  /** Quoted runs end at the same place whether the text is searched from its
      start or from `idx` on. */
  lemma QuoteEndShift(css: string, idx: nat)
    requires idx < |css|
    ensures QuoteEnd(css[idx..], 0) == QuoteEnd(css, idx) - idx
  {
    assert css[idx..][0] == css[idx];
    IndexAfterOfShift(css, [css[idx]], idx, 1);
  }

  /** Comments end at the same place whether the text is searched from its
      start or from `idx` on. */
  lemma CommentEndShift(css: string, idx: nat)
    requires idx + 2 <= |css|
    ensures CommentEnd(css[idx..], 0) == CommentEnd(css, idx) - idx
  {
    IndexAfterOfShift(css, "*/", idx, 2);
  }

  /** A quoted run at `idx` is the first step of the text from `idx` on. */
  lemma QuotedAtSuffix(css: string, idx: nat)
    requires idx < |css| && IsQuote(css[idx])
    ensures TokenAt(css[idx..], 0) == Quoted(css[idx..QuoteEnd(css, idx)])
  {
    var tail := css[idx..];
    assert tail[0] == css[idx];
    QuoteEndShift(css, idx);
    assert tail[0..QuoteEnd(css, idx) - idx] == css[idx..QuoteEnd(css, idx)];
  }

  /** A comment at `idx` is the first step of the text from `idx` on. */
  lemma CommentAtSuffix(css: string, idx: nat)
    requires idx < |css| && !IsQuote(css[idx]) && OpensComment(css, idx)
    ensures TokenAt(css[idx..], 0) == CommentRun(css[idx..CommentEnd(css, idx)])
  {
    var tail := css[idx..];
    assert tail[0] == css[idx];
    assert OpensComment(tail, 0);
    CommentEndShift(css, idx);
    assert tail[0..CommentEnd(css, idx) - idx] == css[idx..CommentEnd(css, idx)];
  }

  /** Any other character at `idx` is the first step of the text from `idx` on. */
  lemma PlainAtSuffix(css: string, idx: nat)
    requires idx < |css| && !IsQuote(css[idx]) && !OpensComment(css, idx)
    ensures TokenAt(css[idx..], 0) == Plain(css[idx])
  {
    var tail := css[idx..];
    assert tail[0] == css[idx];
    assert !OpensComment(tail, 0);
  }

  /** A quoted run keeps the loop invariant of ParseCss. */
  lemma KeepQuoted(css: string, idx: nat, styleContent: string, segments: seq<Segment>, all: seq<Segment>, run: string)
    requires idx < |css| && IsQuote(css[idx]) && run == css[idx..QuoteEnd(css, idx)]
    requires segments + ParseFrom(css, idx, styleContent) == all
    ensures idx + |run| <= |css|
    ensures segments + ParseFrom(css, idx + |run|, styleContent + run) == all
  {
  }

  /** A comment keeps the loop invariant of ParseCss once the pending style block is flushed. */
  lemma KeepComment(css: string, idx: nat, styleContent: string, segments: seq<Segment>, all: seq<Segment>, run: string)
    requires idx < |css| && !IsQuote(css[idx]) && OpensComment(css, idx) && run == css[idx..CommentEnd(css, idx)]
    requires segments + ParseFrom(css, idx, styleContent) == all
    ensures idx + |run| <= |css|
    ensures segments + Flush(styleContent) + [Comment(run)] + ParseFrom(css, idx + |run|, []) == all
  {
    var flushed := Flush(styleContent);
    var comment := [Comment(run)];
    ConcatAssoc(segments, flushed + comment, ParseFrom(css, CommentEnd(css, idx), []));
    ConcatAssoc(segments, flushed, comment);
  }

  /** Any other character keeps the loop invariant of ParseCss. */
  lemma KeepPlain(css: string, idx: nat, styleContent: string, segments: seq<Segment>, all: seq<Segment>, c: char)
    requires idx < |css| && !IsQuote(css[idx]) && !OpensComment(css, idx) && c == css[idx]
    requires segments + ParseFrom(css, idx, styleContent) == all
    ensures segments + ParseFrom(css, idx + 1, styleContent + [c]) == all
  {
  }

  /** One loop iteration over a quoted run: it joins the style buffer whole. */
  lemma PendingQuoted(css: string, idx: nat, styleContent: string)
    requires idx < |css| && IsQuote(css[idx])
    ensures Pending(css, idx, styleContent)
      == Pending(css, QuoteEnd(css, idx), styleContent + css[idx..QuoteEnd(css, idx)])
  {
    QuotedAtSuffix(css, idx);
    StepAt(css, idx, styleContent);
  }

  /** One loop iteration over a comment: the style buffer is flushed and the
      comment is emitted. */
  lemma PendingComment(css: string, idx: nat, styleContent: string)
    requires idx < |css| && !IsQuote(css[idx]) && OpensComment(css, idx)
    ensures Pending(css, idx, styleContent)
      == Flush(styleContent) + [Comment(css[idx..CommentEnd(css, idx)])] + Pending(css, CommentEnd(css, idx), [])
  {
    CommentAtSuffix(css, idx);
    StepAt(css, idx, styleContent);
  }

  /** One loop iteration over any other character: it joins the style buffer. */
  lemma PendingPlain(css: string, idx: nat, styleContent: string)
    requires idx < |css| && !IsQuote(css[idx]) && !OpensComment(css, idx)
    ensures Pending(css, idx, styleContent) == Pending(css, idx + 1, styleContent + [css[idx]])
  {
    PlainAtSuffix(css, idx);
    StepAt(css, idx, styleContent);
  }

  /** The loop's view of the blocks still to come and the token view agree. */
  predicate Agrees(css: string, idx: nat, styleContent: string)
    requires idx <= |css|
  {
    ParseFrom(css, idx, styleContent) == Pending(css, idx, styleContent)
  }

  /** The loop of `parseCss`, iteration by iteration, emits the blocks of the
      token view: ParseFrom and Pending agree from any position on. */
  lemma {:induction false} ParseFromPending(css: string, idx: nat, styleContent: string)
    requires idx <= |css|
    ensures Agrees(css, idx, styleContent)
    decreases |css| - idx, 1
  {
    if idx == |css| {
      PendingAtEnd(css, styleContent);
    } else if IsQuote(css[idx]) {
      AgreeQuoted(css, idx, styleContent);
    } else if OpensComment(css, idx) {
      AgreeComment(css, idx, styleContent);
    } else {
      AgreePlain(css, idx, styleContent);
    }
  }

  lemma {:induction false} AgreeQuoted(css: string, idx: nat, styleContent: string)
    requires idx < |css| && IsQuote(css[idx])
    ensures Agrees(css, idx, styleContent)
    decreases |css| - idx, 0
  {
    PendingQuoted(css, idx, styleContent);
    ParseFromPending(css, QuoteEnd(css, idx), styleContent + css[idx..QuoteEnd(css, idx)]);
  }

  lemma {:induction false} AgreeComment(css: string, idx: nat, styleContent: string)
    requires idx < |css| && !IsQuote(css[idx]) && OpensComment(css, idx)
    ensures Agrees(css, idx, styleContent)
    decreases |css| - idx, 0
  {
    PendingComment(css, idx, styleContent);
    ParseFromPending(css, CommentEnd(css, idx), []);
  }

  lemma {:induction false} AgreePlain(css: string, idx: nat, styleContent: string)
    requires idx < |css| && !IsQuote(css[idx]) && !OpensComment(css, idx)
    ensures Agrees(css, idx, styleContent)
    decreases |css| - idx, 0
  {
    PendingPlain(css, idx, styleContent);
    ParseFromPending(css, idx + 1, styleContent + [css[idx]]);
  }

  /** The blocks still to come, once the first step of the rest of the text is taken. */
  lemma StepAt(css: string, idx: nat, styleContent: string)
    requires idx < |css|
    ensures var t := TokenAt(css[idx..], 0);
      && idx + |t.Span()| <= |css|
      && (t.CommentRun? ==>
        Pending(css, idx, styleContent)
        == Flush(styleContent) + [Comment(t.text)] + Pending(css, idx + |t.Span()|, []))
      && (t.Quoted? ==>
        Pending(css, idx, styleContent) == Pending(css, idx + |t.Span()|, styleContent + t.text))
      && (t.Plain? ==>
        Pending(css, idx, styleContent) == Pending(css, idx + |t.Span()|, styleContent + [t.c]))
  {
    var t := TokenAt(css[idx..], 0);
    ScanUnfold(css[idx..]);
    SuffixPast(css, idx, |t.Span()|);
    GroupCons(styleContent, t, Scan(css[idx + |t.Span()|..]));
  }

  /** One step of grouping, unfolded. */
  lemma GroupCons(styleContent: string, t: Token, rest: seq<Token>)
    ensures t.CommentRun? ==>
      GroupFrom(styleContent, [t] + rest) == Flush(styleContent) + [Comment(t.text)] + GroupFrom([], rest)
    ensures t.Quoted? ==> GroupFrom(styleContent, [t] + rest) == GroupFrom(styleContent + t.text, rest)
    ensures t.Plain? ==> GroupFrom(styleContent, [t] + rest) == GroupFrom(styleContent + [t.c], rest)
  {
    assert ([t] + rest)[0] == t;
    assert ([t] + rest)[1..] == rest;
  }

  // ---------------------------------------------------------------------------
  // Properties of the emitted blocks

  /** The texts of the blocks, concatenated in order. */
  function Texts(segments: seq<Segment>): string {
    if segments == [] then [] else segments[0].text + Texts(segments[1..])
  }

  /** The texts of the scanner's steps, concatenated in order. */
  function Spans(tokens: seq<Token>): string {
    if tokens == [] then [] else tokens[0].Span() + Spans(tokens[1..])
  }

  /** No empty style block is ever emitted. */
  predicate StylesNonEmpty(segments: seq<Segment>) {
    forall i :: 0 <= i < |segments| && segments[i].Style? ==> segments[i].text != []
  }

  /** A style block is flushed only before a comment or at the end, so two
      style blocks never follow each other. */
  predicate NoAdjacentStyles(segments: seq<Segment>) {
    forall i :: 0 < i < |segments| && segments[i].Style? ==> segments[i - 1].Comment?
  }

  /** A comment closed by the first `*` `/` found from two characters past its opener. */
  predicate ClosedComment(t: string) {
    |t| >= 4 && t[..2] == "/*" && IndexOf(t, "*/", 2) == Some(|t| - 2)
  }

  /** A comment with no closing delimiter from two characters past its opener. */
  predicate OpenComment(t: string) {
    |t| >= 2 && t[..2] == "/*" && IndexOf(t, "*/", 2) == None
  }

  /** Every comment block is closed, or open and the last block of the text. */
  predicate CommentsWellFormed(segments: seq<Segment>) {
    forall i :: 0 <= i < |segments| && segments[i].Comment? ==>
      ClosedComment(segments[i].text) || (OpenComment(segments[i].text) && i == |segments| - 1)
  }

  /** The same, for the comment steps of a scan. */
  predicate CommentRunsWellFormed(tokens: seq<Token>) {
    forall i :: 0 <= i < |tokens| && tokens[i].CommentRun? ==>
      ClosedComment(tokens[i].text) || (OpenComment(tokens[i].text) && i == |tokens| - 1)
  }

  lemma {:induction false} TextsAppend(a: seq<Segment>, b: seq<Segment>)
    ensures Texts(a + b) == Texts(a) + Texts(b)
  {
    if a == [] {
      assert a + b == b;
    } else {
      assert (a + b)[0] == a[0];
      assert (a + b)[1..] == a[1..] + b;
      TextsAppend(a[1..], b);
    }
  }

  /** The scan consumes the text exactly, step after step. */
  lemma {:induction false} ScanSpans(s: string)
    ensures Spans(Scan(s)) == s
    decreases |s|
  {
    if s != [] {
      var t := TokenAt(s, 0);
      TokenAtSpan(s, 0);
      ScanSpans(s[|t.Span()|..]);
      assert s == t.Span() + s[|t.Span()|..];
    }
  }

  /** Grouping loses nothing: the blocks spell the pending buffer and then the steps. */
  lemma {:induction false} GroupTexts(styleContent: string, tokens: seq<Token>)
    ensures Texts(GroupFrom(styleContent, tokens)) == styleContent + Spans(tokens)
    decreases |tokens|
  {
    if tokens != [] {
      match tokens[0]
      case CommentRun(t) =>
        var rest := GroupFrom([], tokens[1..]);
        GroupTexts([], tokens[1..]);
        TextsAppend(Flush(styleContent) + [Comment(t)], rest);
        TextsAppend(Flush(styleContent), [Comment(t)]);
      case Quoted(t) =>
        GroupTexts(styleContent + t, tokens[1..]);
      case Plain(c) =>
        GroupTexts(styleContent + [c], tokens[1..]);
    }
  }

  /** A comment step ends at the first closing delimiter from two characters
      past its opener, or is open and runs to the end of the text. */
  lemma CommentRunShape(css: string)
    requires css != [] && TokenAt(css, 0).CommentRun?
    ensures var s := TokenAt(css, 0).text;
      ClosedComment(s) || (OpenComment(s) && |s| == |css|)
  {
    var s := TokenAt(css, 0).text;
    var found := IndexAfterOf(css, "*/", 2);
    IndexAfterOfFirstMatch(css, "*/", 2);
    assert OpensComment(css, 0);
    assert s == css[0..SliceEnd(css, found)];
    assert css[..2] == "/*" by {
      assert css[0] == '/' && css[1] == '*';
    }
    if found.Some? {
      ClosedCommentRun(css, found.value);
    } else {
      assert s == css;
      OpenCommentRun(css);
    }
  }

  /** A text opening a comment whose first closing delimiter from two
      characters on ends at `e`: its first `e` characters are a closed comment. */
  lemma ClosedCommentRun(css: string, e: nat)
    requires 4 <= e <= |css| && css[..2] == "/*"
    requires MatchAt(css, "*/", e - 2)
    requires forall k :: 2 <= k < e - 2 ==> !MatchAt(css, "*/", k)
    ensures ClosedComment(css[0..e])
  {
    var s := css[0..e];
    assert s[..2] == "/*";
    MatchAtSlice(css, "*/", 0, e, e - 2);
    forall j | 2 <= j < e - 2
      ensures !MatchAt(s, "*/", j)
    {
      MatchAtSlice(css, "*/", 0, e, j);
    }
    IndexOfFirst(s, "*/", 2, e - 2);
  }

  /** A text opening a comment that is never closed is an open comment. */
  lemma OpenCommentRun(css: string)
    requires |css| >= 2 && css[..2] == "/*"
    requires forall k :: 2 <= k ==> !MatchAt(css, "*/", k)
    ensures OpenComment(css)
  {
    IndexOfNone(css, "*/", 2);
  }

  /** Every comment step of a scan is closed, or open and the last step. */
  lemma {:induction false} ScanCommentRuns(s: string)
    ensures CommentRunsWellFormed(Scan(s))
    decreases |s|
  {
    if s != [] {
      var t := TokenAt(s, 0);
      var later := s[|t.Span()|..];
      ScanUnfold(s);
      if t.CommentRun? {
        CommentRunShape(s);
        if !ClosedComment(t.text) {
          assert later == [];
        }
      }
      ScanCommentRuns(later);
      CommentRunsCons(t, Scan(later));
    }
  }

  lemma CommentRunsCons(t: Token, rest: seq<Token>)
    requires CommentRunsWellFormed(rest)
    requires t.CommentRun? ==> ClosedComment(t.text) || (OpenComment(t.text) && rest == [])
    ensures CommentRunsWellFormed([t] + rest)
  {
    var tokens := [t] + rest;
    forall i | 0 < i < |tokens| && tokens[i].CommentRun?
      ensures ClosedComment(tokens[i].text) || (OpenComment(tokens[i].text) && i == |tokens| - 1)
    {
      assert tokens[i] == rest[i - 1];
    }
  }

  /** Grouping well-formed steps gives blocks with the three shape properties. */
  lemma {:induction false} GroupShape(styleContent: string, tokens: seq<Token>)
    requires CommentRunsWellFormed(tokens)
    ensures var segments := GroupFrom(styleContent, tokens);
      StylesNonEmpty(segments) && NoAdjacentStyles(segments) && CommentsWellFormed(segments)
    decreases |tokens|
  {
    if tokens != [] {
      var tail := tokens[1..];
      assert CommentRunsWellFormed(tail) by {
        forall i | 0 <= i < |tail| && tail[i].CommentRun?
          ensures ClosedComment(tail[i].text) || (OpenComment(tail[i].text) && i == |tail| - 1)
        {
          assert tail[i] == tokens[i + 1];
        }
      }
      match tokens[0]
      case CommentRun(t) =>
        GroupShape([], tail);
        var rest := GroupFrom([], tail);
        var head := Flush(styleContent) + [Comment(t)];
        var segments := head + rest;
        assert tail == [] ==> rest == [];
        assert ClosedComment(t) || (OpenComment(t) && tail == []);
        assert rest != [] ==> rest[0].Comment? || rest[0].text != [] by {
          if rest != [] && rest[0].Style? {
            assert StylesNonEmpty(rest);
          }
        }
        forall i | 0 < i < |segments| && segments[i].Style?
          ensures segments[i - 1].Comment?
        {
          if i > |head| {
            assert segments[i] == rest[i - |head|] && segments[i - 1] == rest[i - 1 - |head|];
          }
        }
        forall i | 0 <= i < |segments| && segments[i].Comment?
          ensures ClosedComment(segments[i].text) || (OpenComment(segments[i].text) && i == |segments| - 1)
        {
          if i >= |head| {
            assert segments[i] == rest[i - |head|];
          }
        }
      case Quoted(t) =>
        GroupShape(styleContent + t, tail);
      case Plain(c) =>
        GroupShape(styleContent + [c], tail);
    }
  }

  /** What `parseCss` promises about the blocks it emits for any text: they
      spell the text back exactly, style blocks are non-empty and never
      adjacent, and comments end at the first closing delimiter or at the end. */
  lemma ParseShape(css: string)
    ensures Texts(Parse(css)) == css
    ensures StylesNonEmpty(Parse(css)) && NoAdjacentStyles(Parse(css))
    ensures CommentsWellFormed(Parse(css))
  {
    GroupTexts([], Scan(css));
    ScanSpans(css);
    ScanCommentRuns(css);
    GroupShape([], Scan(css));
  }

  // ---------------------------------------------------------------------------
  // The scanner, characterised by the shape of its input

  /** The blocks for a text `t` followed by blocks `segments`: `t` joins the
      first block when that is a style block, and is a style block of its own
      otherwise. */
  function Prepend(t: string, segments: seq<Segment>): seq<Segment> {
    if t == [] then segments
    else if segments != [] && segments[0].Style? then [Style(t + segments[0].text)] + segments[1..]
    else [Style(t)] + segments
  }

  lemma PrependAssoc(a: string, b: string, segments: seq<Segment>)
    ensures Prepend(a + b, segments) == Prepend(a, Prepend(b, segments))
  {
    if a == [] {
      assert a + b == b;
    } else if b == [] {
      assert a + b == a;
    } else if segments != [] && segments[0].Style? {
      assert (a + b) + segments[0].text == a + (b + segments[0].text);
    }
  }

  /** A pending style buffer is the same as style text in front of the blocks. */
  lemma {:induction false} GroupBuffer(styleContent: string, tokens: seq<Token>)
    ensures GroupFrom(styleContent, tokens) == Prepend(styleContent, GroupFrom([], tokens))
    decreases |tokens|, 1
  {
    if tokens != [] {
      var tail := tokens[1..];
      assert tokens == [tokens[0]] + tail;
      if tokens[0].CommentRun? {
        BufferComment(styleContent, tokens[0], tail);
      } else {
        BufferText(styleContent, tokens[0], tail);
      }
    }
  }

  /** GroupBuffer when the first token closes the style buffer. */
  lemma BufferComment(styleContent: string, t: Token, tail: seq<Token>)
    requires t.CommentRun?
    ensures GroupFrom(styleContent, [t] + tail) == Prepend(styleContent, GroupFrom([], [t] + tail))
  {
    GroupCons(styleContent, t, tail);
    GroupCons([], t, tail);
    FlushBeforeComment(styleContent, t.text, GroupFrom([], tail));
  }

  /** Flushing style text before a comment is prepending it to the comment's blocks. */
  lemma FlushBeforeComment(styleContent: string, comment: string, later: seq<Segment>)
    ensures Flush(styleContent) + [Comment(comment)] + later
      == Prepend(styleContent, Flush([]) + [Comment(comment)] + later)
  {
    var rest := [Comment(comment)] + later;
    assert Flush([]) + [Comment(comment)] + later == rest;
    if styleContent != [] {
      assert Flush(styleContent) + [Comment(comment)] + later == [Style(styleContent)] + rest;
    }
  }

  /** GroupBuffer when the first token adds to the style buffer. */
  lemma {:induction false} BufferText(styleContent: string, t: Token, tail: seq<Token>)
    requires !t.CommentRun?
    ensures GroupFrom(styleContent, [t] + tail) == Prepend(styleContent, GroupFrom([], [t] + tail))
    decreases |tail| + 1, 0
  {
    var text := if t.Quoted? then t.text else [t.c];
    GroupCons(styleContent, t, tail);
    GroupCons([], t, tail);
    assert [] + text == text;
    GroupBuffer(styleContent + text, tail);
    GroupBuffer(text, tail);
    PrependAssoc(styleContent, text, GroupFrom([], tail));
  }

  /** A quoted run is taken whole into the style text, whatever it holds:
      a comment opener inside quotes never starts a comment. */
  lemma ParseQuoted(q: char, body: string, rest: string)
    requires IsQuote(q) && q !in body
    ensures Parse([q] + body + [q] + rest) == Prepend([q] + body + [q], Parse(rest))
  {
    var run := [q] + body + [q];
    var css := run + rest;
    var m := |body| + 1;
    assert css[m..m + 1] == [q];
    forall k | 1 <= k < m
      ensures !MatchAt(css, [q], k)
    {
      assert css[k] == body[k - 1];
    }
    IndexOfFirst(css, [q], 1, m);
    assert TokenAt(css, 0) == Quoted(css[0..m + 1]);
    assert css[0..m + 1] == run;
    assert css[m + 1..] == rest;
    ScanUnfold(css);
    GroupCons([], Quoted(run), Scan(rest));
    assert [] + run == run;
    GroupBuffer(run, Scan(rest));
  }

  /** A quote that is never closed makes the rest of the text one style block. */
  lemma ParseUnterminatedQuote(q: char, body: string)
    requires IsQuote(q) && q !in body
    ensures Parse([q] + body) == [Style([q] + body)]
  {
    var css := [q] + body;
    forall k | 1 <= k <= |css|
      ensures !MatchAt(css, [q], k)
    {
      if k < |css| {
        assert css[k] == body[k - 1];
      }
    }
    IndexOfNone(css, [q], 1);
    assert TokenAt(css, 0) == Quoted(css[0..|css|]);
    assert css[0..|css|] == css;
    ScanUnfold(css);
    assert css[|css|..] == [];
    GroupCons([], Quoted(css), []);
    assert [] + css == css;
  }

  /** A comment runs to the first closing delimiter and is a block of its own. */
  lemma ParseComment(body: string, rest: string)
    requires !Contains(body, "*/")
    ensures Parse("/*" + body + "*/" + rest) == [Comment("/*" + body + "*/")] + Parse(rest)
  {
    var comment := "/*" + body + "*/";
    var css := comment + rest;
    var m := |body| + 2;
    IndexOfFirstMatch(body, "*/", 0);
    assert css[m..m + 2] == "*/";
    forall k | 2 <= k < m
      ensures !MatchAt(css, "*/", k)
    {
      if k + 2 <= m {
        assert css[k..k + 2] == body[k - 2..k];
        assert !MatchAt(body, "*/", k - 2);
      } else {
        assert css[k + 1] == '*';
        assert css[k..k + 2][1] == css[k + 1];
      }
    }
    IndexOfFirst(css, "*/", 2, m);
    assert OpensComment(css, 0);
    assert TokenAt(css, 0) == CommentRun(css[0..m + 2]);
    assert css[0..m + 2] == comment;
    assert css[m + 2..] == rest;
    ScanUnfold(css);
    GroupCons([], CommentRun(comment), Scan(rest));
    assert Flush([]) + [Comment(comment)] == [Comment(comment)];
  }

  /** A comment that is never closed makes the rest of the text one comment block. */
  lemma ParseUnterminatedComment(body: string)
    requires !Contains(body, "*/")
    ensures Parse("/*" + body) == [Comment("/*" + body)]
  {
    var css := "/*" + body;
    IndexOfFirstMatch(body, "*/", 0);
    forall k | 2 <= k <= |css|
      ensures !MatchAt(css, "*/", k)
    {
      if k + 2 <= |css| {
        assert css[k..k + 2] == body[k - 2..k];
        assert !MatchAt(body, "*/", k - 2);
      }
    }
    IndexOfNone(css, "*/", 2);
    assert OpensComment(css, 0);
    assert TokenAt(css, 0) == CommentRun(css[0..|css|]);
    assert css[0..|css|] == css;
    ScanUnfold(css);
    assert css[|css|..] == [];
    GroupCons([], CommentRun(css), []);
    assert Flush([]) + [Comment(css)] == [Comment(css)];
  }

  /** Any other character joins the style text. */
  lemma ParsePlain(c: char, rest: string)
    requires !IsQuote(c) && !(c == '/' && rest != [] && rest[0] == '*')
    ensures Parse([c] + rest) == Prepend([c], Parse(rest))
  {
    var css := [c] + rest;
    assert !OpensComment(css, 0);
    assert TokenAt(css, 0) == Plain(c);
    assert css[1..] == rest;
    ScanUnfold(css);
    GroupCons([], Plain(c), Scan(rest));
    assert [] + [c] == [c];
    GroupBuffer([c], Scan(rest));
  }

  /** The empty text has no blocks. */
  lemma ParseEmpty()
    ensures Parse([]) == []
  {
  }

  /** A run of characters that holds no quote and opens no comment joins the style text whole. */
  lemma {:induction false} ParsePlainRun(p: string, rest: string)
    requires forall i :: 0 <= i < |p| ==> !IsQuote(p[i]) && !OpensComment(p + rest, i)
    ensures Parse(p + rest) == Prepend(p, Parse(rest))
  {
    if p != [] {
      var tail := p[1..];
      assert p + rest == [p[0]] + (tail + rest);
      assert !OpensComment(p + rest, 0);
      forall i | 0 <= i < |tail|
        ensures !IsQuote(tail[i]) && !OpensComment(tail + rest, i)
      {
        assert tail[i] == p[i + 1];
        assert !OpensComment(p + rest, i + 1);
        assert (tail + rest)[i] == (p + rest)[i + 1];
        if i + 1 < |tail + rest| {
          assert (tail + rest)[i + 1] == (p + rest)[i + 2];
        }
      }
      ParsePlain(p[0], tail + rest);
      ParsePlainRun(tail, rest);
      PrependAssoc([p[0]], tail, Parse(rest));
      assert [p[0]] + tail == p;
    } else {
      assert p + rest == rest;
    }
  }

  /** A comment opener inside a quoted value stays part of the style block. */
  lemma ExampleQuotedOpener()
    ensures Parse("\"/*\"") == [Style("\"/*\"")]
  {
    var run := ['"'] + "/*" + ['"'];
    ParseEmpty();
    ParseQuoted('"', "/*", []);
    assert run + [] == run == "\"/*\"";
    assert Prepend(run, []) == [Style(run)];
  }

  /** A comment between two pieces of style text is a block between two style blocks. */
  lemma ExampleCommentBetweenRules()
    ensures Parse("a/**/b") == [Style("a"), Comment("/**/"), Style("b")]
  {
    var later := [Comment("/**/"), Style("b")];
    ParseEmpty();
    ParsePlain('b', []);
    assert ['b'] + [] == "b";
    assert Parse("b") == [Style("b")];
    IndexOfNone("", "*/", 0);
    ParseComment("", "b");
    assert "/*" + "" + "*/" == "/**/";
    var css := "a/**/b";
    assert css[1..] == "/**/" + "b";
    assert Parse(css[1..]) == later;
    ParsePlain('a', css[1..]);
    assert css == ['a'] + css[1..];
    assert Prepend("a", later) == [Style("a")] + later;
  }

  /** The closing delimiter is searched for only after the opener, so an opener followed by a slash is one unclosed comment. */
  lemma ExampleOpenerIsNotCloser()
    ensures Parse("/*/") == [Comment("/*/")]
  {
    IndexOfNone("/", "*/", 0);
    ParseUnterminatedComment("/");
    assert "/*" + "/" == "/*/";
  }
}
