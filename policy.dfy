/** What `writeBundle` puts into the generated file for one CSS file, under
    each `includeComments` policy. Each policy is read as the sequence of
    calls it makes on the `JsFile`: `Raw` for `pushContent` and `Const` for
    `pushConstValue`. */
module Policies {
  import opened Text
  import opened CssParser
  import opened Escaping
  import opened Templates
  import opened JsFiles

  /** The `includeComments` option: `'in-const'`, `'in-file-only'` or `false`. */
  datatype IncludeComments = InConst | InFileOnly | Exclude

  datatype Action = Raw(text: string) | Const(value: string)

  /** The calls made for one style block under `'in-file-only'`: a blank block
      is copied as it is; otherwise its leading whitespace is copied, its
      trimmed text becomes a value and its trailing whitespace is copied
      (StyleActionsFacts). */
  function StyleActions(block: string): seq<Action> {
    if AllWs(block) then [Raw(block)]
    else [Raw(LeadingWs(block)), Const(Trim(block)), Raw(TrailingWs(block))]
  }

  function SegmentActions(segment: Segment): seq<Action> {
    match segment
    case Style(block) => StyleActions(block)
    case Comment(text) => [Raw(text)]
  }

  /** The calls made under `'in-file-only'`, block by block. */
  function InFileOnlyActions(segments: seq<Segment>): seq<Action> {
    if segments == [] then [] else SegmentActions(segments[0]) + InFileOnlyActions(segments[1..])
  }

  /** The style blocks' trimmed texts, concatenated, as collected under
      `false` (TrimmedStylesBound). */
  function TrimmedStyles(segments: seq<Segment>): string {
    if segments == [] then []
    else (if segments[0].Style? then Trim(segments[0].text) else []) + TrimmedStyles(segments[1..])
  }

  /** The calls each policy makes for the CSS text `css`. */
  function PolicyActions(policy: IncludeComments, css: string): (r: seq<Action>)
    ensures policy != Exclude ==> Flatten(r) == css
    ensures policy == Exclude ==> |Flatten(r)| <= |css|
  {
    match policy
    case InConst =>
      assert [Const(css)][1..] == [];
      [Const(css)]
    case InFileOnly =>
      ParseShape(css);
      InFileOnlyFacts(Parse(css));
      InFileOnlyActions(Parse(css))
    case Exclude =>
      var v := TrimmedStyles(Parse(css));
      ParseShape(css);
      TrimmedStylesBound(Parse(css));
      assert [Const(v)][1..] == [];
      [Const(v)]
  }

  /** The file content after one call. */
  function Apply(content: string, constName: string, action: Action): string {
    match action
    case Raw(text) => content + text
    case Const(value) => WithConstValue(content, constName, value)
  }

  /** The file content after the calls `actions`, starting from `content`. */
  function Perform(content: string, constName: string, actions: seq<Action>): string
    decreases |actions|
  {
    if actions == [] then content
    else Perform(Apply(content, constName, actions[0]), constName, actions[1..])
  }

  /** The value the accumulator holds once the generated statements have run:
      each `Const` appends its value, with line breaks normalised, as the
      string literal it is written as stands for that text. */
  function ExportedValue(actions: seq<Action>): string {
    if actions == [] then []
    else
      (match actions[0] case Raw(_) => [] case Const(value) => Normalize(value))
      + ExportedValue(actions[1..])
  }

  /** The number of `pushConstValue` calls. */
  function ConstCount(actions: seq<Action>): nat {
    if actions == [] then 0
    else (if actions[0].Const? then 1 else 0) + ConstCount(actions[1..])
  }

  /** The CSS text the calls carry, raw or as values, in order. */
  function Flatten(actions: seq<Action>): string {
    if actions == [] then []
    else (match actions[0] case Raw(text) => text case Const(value) => value) + Flatten(actions[1..])
  }

  /** The number of style blocks that are not blank. */
  function NonBlankStyles(segments: seq<Segment>): nat {
    if segments == [] then 0
    else (if segments[0].Style? && !AllWs(segments[0].text) then 1 else 0) + NonBlankStyles(segments[1..])
  }

  /** A raw piece that cannot change what the module computes: whitespace, or
      a comment closed within the piece. */
  predicate InertRaw(text: string) {
    (forall i :: 0 <= i < |text| ==> IsWs(text[i])) || ClosedComment(text)
  }

  predicate RawInert(actions: seq<Action>) {
    forall k :: 0 <= k < |actions| && actions[k].Raw? ==> InertRaw(actions[k].text)
  }

  /** Every raw piece is inert, except that the last call may copy a comment
      that is never closed. */
  predicate RawInertButOpenLast(actions: seq<Action>) {
    forall k :: 0 <= k < |actions| && actions[k].Raw? ==>
      InertRaw(actions[k].text) || (OpenComment(actions[k].text) && k == |actions| - 1)
  }

  /** Every comment block is closed. */
  predicate CommentsClosed(segments: seq<Segment>) {
    forall i :: 0 <= i < |segments| && segments[i].Comment? ==> ClosedComment(segments[i].text)
  }

  // ---------------------------------------------------------------------------
  // Running the policies on a `JsFile`

  /** The branch of `writeBundle` that fills the file for one CSS text. */
  method FillJsFile(file: JsFile, policy: IncludeComments, css: string)
    requires file.Valid()
    modifies file
    ensures file.Valid()
    ensures file.content == Perform(old(file.content), file.constName, PolicyActions(policy, css))
  {
    if policy == InConst {
      file.PushConstValue(css);
      PerformCons(old(file.content), file.constName, Const(css), []);
    } else if policy == InFileOnly {
      var segments := ParseCss(css);
      PushSegments(file, segments);
    } else {
      var segments := ParseCss(css);
      var styleContent := CollectStyles(segments);
      file.PushConstValue(styleContent);
      PerformCons(old(file.content), file.constName, Const(styleContent), []);
    }
  }

  /** The parser callbacks under `'in-file-only'`, block after block. */
  method PushSegments(file: JsFile, segments: seq<Segment>)
    requires file.Valid()
    modifies file
    ensures file.Valid()
    ensures file.content == Perform(old(file.content), file.constName, InFileOnlyActions(segments))
  {
    var i := 0;
    while i < |segments|
      invariant i <= |segments| && file.Valid()
      invariant Perform(file.content, file.constName, InFileOnlyActions(segments[i..]))
        == Perform(old(file.content), file.constName, InFileOnlyActions(segments))
    {
      assert segments[i..][0] == segments[i];
      assert segments[i..][1..] == segments[i + 1..];
      PerformAppend(file.content, file.constName, SegmentActions(segments[i]), InFileOnlyActions(segments[i + 1..]));
      PushSegment(file, segments[i]);
      i := i + 1;
    }
    assert segments[i..] == [];
  }

  /** The parser callback under `false`: the style blocks' trimmed texts,
      collected in order. */
  method CollectStyles(segments: seq<Segment>) returns (styleContent: string)
    ensures styleContent == TrimmedStyles(segments)
  {
    styleContent := "";
    var i := 0;
    while i < |segments|
      invariant i <= |segments|
      invariant styleContent + TrimmedStyles(segments[i..]) == TrimmedStyles(segments)
    {
      assert segments[i..][0] == segments[i];
      assert segments[i..][1..] == segments[i + 1..];
      if segments[i].Style? {
        styleContent := styleContent + Trim(segments[i].text);
      }
      i := i + 1;
    }
    assert segments[i..] == [];
  }

  /** The parser callback under `'in-file-only'`, for one block. */
  method PushSegment(file: JsFile, segment: Segment)
    requires file.Valid()
    modifies file
    ensures file.Valid()
    ensures file.content == Perform(old(file.content), file.constName, SegmentActions(segment))
  {
    ghost var start := file.content;
    ghost var n := file.constName;
    match segment
    case Style(block) =>
      if AllWs(block) {
        file.PushContent(block);
        PerformCons(start, n, Raw(block), []);
      } else {
        var lead := LeadingWs(block);
        var trimmed := Trim(block);
        var trail := TrailingWs(block);
        file.PushContent(lead);
        file.PushConstValue(trimmed);
        file.PushContent(trail);
        PerformThreeCalls(start, n, lead, trimmed, trail);
      }
    case Comment(text) =>
      file.PushContent(text);
      PerformCons(start, n, Raw(text), []);
  }

  /** `writeBundle` for one CSS file, up to writing the result: a new file
      filled under the policy and wrapped in its template. */
  method GenerateModule(format: Format, exports: Exports, constName: string, policy: IncludeComments, css: string)
    returns (jsContent: string)
    ensures jsContent == Assemble(GetJsTemplate(format, exports, constName),
      Perform("\n", constName, PolicyActions(policy, css)))
    ensures Framed(jsContent, GetJsTemplate(format, exports, constName), constName)
  {
    var file := new JsFile(format, exports, constName);
    FillJsFile(file, policy, css);
    jsContent := file.GetContent();
    GeneratedModuleFrame(format, exports, constName, file.content);
  }

  // ---------------------------------------------------------------------------
  // Properties of the policies

  lemma PerformCons(content: string, constName: string, action: Action, rest: seq<Action>)
    ensures Perform(content, constName, [action] + rest) == Perform(Apply(content, constName, action), constName, rest)
  {
    assert ([action] + rest)[0] == action;
    assert ([action] + rest)[1..] == rest;
  }

  lemma PerformThreeCalls(content: string, constName: string, lead: string, value: string, trail: string)
    ensures Perform(content, constName, [Raw(lead), Const(value), Raw(trail)])
      == WithConstValue(content + lead, constName, value) + trail
  {
    PerformCons(content, constName, Raw(lead), [Const(value), Raw(trail)]);
    PerformCons(content + lead, constName, Const(value), [Raw(trail)]);
    PerformCons(WithConstValue(content + lead, constName, value), constName, Raw(trail), []);
    assert [Raw(lead)] + [Const(value), Raw(trail)] == [Raw(lead), Const(value), Raw(trail)];
  }

  lemma {:induction false} PerformAppend(content: string, constName: string, a: seq<Action>, b: seq<Action>)
    ensures Perform(content, constName, a + b) == Perform(Perform(content, constName, a), constName, b)
    decreases |a|
  {
    if a == [] {
      assert a + b == b;
    } else {
      assert (a + b)[0] == a[0];
      assert (a + b)[1..] == a[1..] + b;
      PerformAppend(Apply(content, constName, a[0]), constName, a[1..], b);
    }
  }

  lemma {:induction false} ExportedValueAppend(a: seq<Action>, b: seq<Action>)
    ensures ExportedValue(a + b) == ExportedValue(a) + ExportedValue(b)
    decreases |a|
  {
    if a == [] {
      assert a + b == b;
    } else {
      assert (a + b)[0] == a[0];
      assert (a + b)[1..] == a[1..] + b;
      ExportedValueAppend(a[1..], b);
    }
  }

  lemma {:induction false} ConstCountAppend(a: seq<Action>, b: seq<Action>)
    ensures ConstCount(a + b) == ConstCount(a) + ConstCount(b)
    decreases |a|
  {
    if a == [] {
      assert a + b == b;
    } else {
      assert (a + b)[0] == a[0];
      assert (a + b)[1..] == a[1..] + b;
      ConstCountAppend(a[1..], b);
    }
  }

  lemma {:induction false} FlattenAppend(a: seq<Action>, b: seq<Action>)
    ensures Flatten(a + b) == Flatten(a) + Flatten(b)
    decreases |a|
  {
    if a == [] {
      assert a + b == b;
    } else {
      assert (a + b)[0] == a[0];
      assert (a + b)[1..] == a[1..] + b;
      FlattenAppend(a[1..], b);
    }
  }

  lemma OneRawCall(text: string)
    ensures ExportedValue([Raw(text)]) == [] && ConstCount([Raw(text)]) == 0 && Flatten([Raw(text)]) == text
  {
    assert [Raw(text)][1..] == [];
  }

  lemma ThreeCalls(lead: string, value: string, trail: string)
    ensures var calls := [Raw(lead), Const(value), Raw(trail)];
      && ExportedValue(calls) == Normalize(value)
      && ConstCount(calls) == 1
      && Flatten(calls) == lead + value + trail
  {
    var calls := [Raw(lead), Const(value), Raw(trail)];
    assert calls[1..] == [Const(value), Raw(trail)];
    assert calls[1..][1..] == [Raw(trail)];
    OneRawCall(trail);
  }

  /** A style block's calls: its trimmed text is the one value, pushed unless
      the block is blank, and the pieces carry the block unchanged. */
  lemma StyleActionsFacts(block: string)
    ensures ExportedValue(StyleActions(block)) == Normalize(Trim(block))
    ensures ConstCount(StyleActions(block)) == if AllWs(block) then 0 else 1
    ensures Flatten(StyleActions(block)) == block
    ensures RawInert(StyleActions(block))
  {
    if AllWs(block) {
      OneRawCall(block);
      assert Trim(block) == [];
    } else {
      var lead := LeadingWs(block);
      var trail := TrailingWs(block);
      ThreeCalls(lead, Trim(block), trail);
      if Trim(block) == [] {
        assert block == [];
        assert lead + [] + trail == block;
      }
    }
    StyleActionsInert(block);
  }

  /** The pieces a style block copies are whitespace. */
  lemma StyleActionsInert(block: string)
    ensures RawInert(StyleActions(block))
  {
    if AllWs(block) {
      WsInert(block);
      OneInertCall(block);
    } else {
      WsInert(LeadingWs(block));
      WsInert(TrailingWs(block));
      ThreeInertCalls(LeadingWs(block), Trim(block), TrailingWs(block));
    }
  }

  lemma OneInertCall(text: string)
    requires InertRaw(text)
    ensures RawInert([Raw(text)])
  {
  }

  lemma ThreeInertCalls(lead: string, value: string, trail: string)
    requires InertRaw(lead) && InertRaw(trail)
    ensures RawInert([Raw(lead), Const(value), Raw(trail)])
  {
  }

  lemma WsInert(text: string)
    requires forall i :: 0 <= i < |text| ==> IsWs(text[i])
    ensures InertRaw(text)
  {
  }

  lemma SegmentActionsValues(segment: Segment)
    ensures ExportedValue(SegmentActions(segment)) == Normalize(if segment.Style? then Trim(segment.text) else [])
    ensures ConstCount(SegmentActions(segment)) == if segment.Style? && !AllWs(segment.text) then 1 else 0
  {
    match segment
    case Style(block) =>
      StyleActionsFacts(block);
    case Comment(text) =>
      OneRawCall(text);
  }

  lemma SegmentActionsPieces(segment: Segment)
    requires segment.Comment? ==> ClosedComment(segment.text) || OpenComment(segment.text)
    ensures Flatten(SegmentActions(segment)) == segment.text
    ensures RawInertButOpenLast(SegmentActions(segment))
    ensures segment.Style? || ClosedComment(segment.text) ==> RawInert(SegmentActions(segment))
  {
    match segment
    case Style(block) =>
      StyleActionsFacts(block);
    case Comment(text) =>
      OneRawCall(text);
  }

  /** Under `'in-file-only'`, per block list: the exported value is the
      trimmed style texts, one value is pushed per style block that is not
      blank, the pieces carry the text unchanged, and every raw piece is
      whitespace or a closed comment, but for a comment left open, which can
      only be the last piece. */
  lemma InFileOnlyFacts(segments: seq<Segment>)
    requires CommentsWellFormed(segments)
    ensures ExportedValue(InFileOnlyActions(segments)) == Normalize(TrimmedStyles(segments))
    ensures ConstCount(InFileOnlyActions(segments)) == NonBlankStyles(segments)
    ensures Flatten(InFileOnlyActions(segments)) == Texts(segments)
    ensures RawInertButOpenLast(InFileOnlyActions(segments))
    ensures CommentsClosed(segments) ==> RawInert(InFileOnlyActions(segments))
  {
    InFileOnlyValues(segments);
    InFileOnlyPieces(segments);
  }

  /** Under `'in-file-only'`: the values pushed, and how many. */
  lemma {:induction false} InFileOnlyValues(segments: seq<Segment>)
    ensures ExportedValue(InFileOnlyActions(segments)) == Normalize(TrimmedStyles(segments))
    ensures ConstCount(InFileOnlyActions(segments)) == NonBlankStyles(segments)
  {
    if segments != [] {
      var head := SegmentActions(segments[0]);
      var rest := segments[1..];
      var tail := InFileOnlyActions(rest);
      InFileOnlyValues(rest);
      SegmentActionsValues(segments[0]);
      ExportedValueAppend(head, tail);
      ConstCountAppend(head, tail);
      var t := if segments[0].Style? then Trim(segments[0].text) else [];
      NormalizeAppend(t, TrimmedStyles(rest));
    }
  }

  /** Under `'in-file-only'`: the pieces, and which of them are inert. */
  lemma {:induction false} InFileOnlyPieces(segments: seq<Segment>)
    requires CommentsWellFormed(segments)
    ensures Flatten(InFileOnlyActions(segments)) == Texts(segments)
    ensures RawInertButOpenLast(InFileOnlyActions(segments))
    ensures CommentsClosed(segments) ==> RawInert(InFileOnlyActions(segments))
  {
    if segments != [] {
      var head := SegmentActions(segments[0]);
      var rest := segments[1..];
      var tail := InFileOnlyActions(rest);
      assert CommentsWellFormed(rest);
      InFileOnlyPieces(rest);
      SegmentActionsPieces(segments[0]);
      FlattenAppend(head, tail);
      if segments[0].Style? || ClosedComment(segments[0].text) {
        RawInertButOpenLastAppend(head, tail);
        if CommentsClosed(segments) {
          assert CommentsClosed(rest);
          RawInertAppend(head, tail);
        }
      } else {
        assert rest == [] && tail == [];
        assert head + tail == head;
      }
    }
  }

  /** Keeping comments in the file only or dropping them pushes values that
      add up to the same text: the style blocks' trimmed texts, concatenated.
      The module computes that constant only if it loads, which under
      `'in-file-only'` needs every comment closed (OpenCommentSwallowsClosing). */
  lemma SameValueWithOrWithoutComments(css: string)
    ensures ExportedValue(PolicyActions(InFileOnly, css)) == ExportedValue(PolicyActions(Exclude, css))
    ensures ExportedValue(PolicyActions(Exclude, css)) == Normalize(TrimmedStyles(Parse(css)))
  {
    ParseShape(css);
    InFileOnlyFacts(Parse(css));
    var v := TrimmedStyles(Parse(css));
    assert [Const(v)][1..] == [];
  }

  /** Under `'in-const'` the whole CSS text, comments included, is the single
      value; under `false` there is one value too. */
  lemma SingleValuePolicies(css: string)
    ensures ConstCount(PolicyActions(InConst, css)) == 1
    ensures ExportedValue(PolicyActions(InConst, css)) == Normalize(css)
    ensures ConstCount(PolicyActions(Exclude, css)) == 1
  {
    assert PolicyActions(InConst, css)[1..] == [];
    assert PolicyActions(Exclude, css)[1..] == [];
  }

  /** Under `'in-file-only'`: one value per style block that is not blank; the
      pieces copied and the values pushed, in order, make up the whole CSS
      text; and every piece copied is whitespace or a closed comment, but for
      a comment left open at the end of the text. */
  lemma InFileOnlyCalls(css: string)
    ensures ConstCount(PolicyActions(InFileOnly, css)) == NonBlankStyles(Parse(css))
    ensures Flatten(PolicyActions(InFileOnly, css)) == css
    ensures RawInertButOpenLast(PolicyActions(InFileOnly, css))
    ensures CommentsClosed(Parse(css)) ==> RawInert(PolicyActions(InFileOnly, css))
  {
    ParseShape(css);
    InFileOnlyFacts(Parse(css));
  }

  /** With no style block that is not blank, `'in-file-only'` copies the CSS
      text into the file unchanged and pushes no value. */
  lemma InFileOnlyWithoutStyles(content: string, constName: string, css: string)
    requires NonBlankStyles(Parse(css)) == 0
    ensures ConstCount(PolicyActions(InFileOnly, css)) == 0
    ensures Perform(content, constName, PolicyActions(InFileOnly, css)) == content + css
  {
    InFileOnlyCalls(css);
    PerformRawOnly(content, constName, PolicyActions(InFileOnly, css));
  }

  /** The text collected under `false` is never longer than the blocks'
      text, and is empty when every style block is blank. */
  lemma {:induction false} TrimmedStylesBound(segments: seq<Segment>)
    ensures |TrimmedStyles(segments)| <= |Texts(segments)|
    ensures NonBlankStyles(segments) == 0 ==> TrimmedStyles(segments) == []
  {
    if segments != [] {
      TrimmedStylesBound(segments[1..]);
      if segments[0].Style? && Trim(segments[0].text) != [] {
        var t := segments[0].text;
        assert LeadingWs(t) + Trim(t) + TrailingWs(t) == t;
      }
    }
  }

  lemma {:induction false} PerformRawOnly(content: string, constName: string, actions: seq<Action>)
    requires ConstCount(actions) == 0
    ensures Perform(content, constName, actions) == content + Flatten(actions)
    decreases |actions|
  {
    if actions != [] {
      PerformRawOnly(Apply(content, constName, actions[0]), constName, actions[1..]);
    }
  }

  /** Under `'in-file-only'` a comment left open at the end of the CSS is the
      last piece copied, so in the generated module it runs on over the line
      break and the closing code that `getContent` appends after it. */
  lemma OpenCommentSwallowsClosing(format: Format, exports: Exports, constName: string, css: string)
    requires Parse(css) != [] && Parse(css)[|Parse(css)| - 1].Comment?
    requires OpenComment(Parse(css)[|Parse(css)| - 1].text)
    ensures var t := GetJsTemplate(format, exports, constName);
      EndsWith(Assemble(t, Perform("\n", constName, PolicyActions(InFileOnly, css))),
        Parse(css)[|Parse(css)| - 1].text + "\n" + t.codeEnd)
  {
    var text := Parse(css)[|Parse(css)| - 1].text;
    var content := Perform("\n", constName, PolicyActions(InFileOnly, css));
    OpenCommentCopiedLast(constName, css);
    AssembleEndsWith(GetJsTemplate(format, exports, constName), content, text);
  }

  /** The file content ends with the comment left open at the end of the CSS. */
  lemma OpenCommentCopiedLast(constName: string, css: string)
    requires Parse(css) != [] && Parse(css)[|Parse(css)| - 1].Comment?
    ensures EndsWith(Perform("\n", constName, PolicyActions(InFileOnly, css)), Parse(css)[|Parse(css)| - 1].text)
  {
    var segments := Parse(css);
    var n := |segments|;
    var text := segments[n - 1].text;
    assert segments == segments[..n - 1] + [segments[n - 1]];
    InFileOnlyActionsAppend(segments[..n - 1], [segments[n - 1]]);
    var before := InFileOnlyActions(segments[..n - 1]);
    assert InFileOnlyActions([segments[n - 1]]) == [Raw(text)];
    PerformAppend("\n", constName, before, [Raw(text)]);
    var content := Perform("\n", constName, before);
    assert Perform(content, constName, [Raw(text)]) == content + text;
    EndsWithAppended(content, text);
  }

  lemma AssembleEndsWith(t: JsTemplate, content: string, suffix: string)
    requires EndsWith(content, suffix)
    ensures EndsWith(Assemble(t, content), suffix + "\n" + t.codeEnd)
  {
    var head := content[..|content| - |suffix|];
    assert content == head + suffix;
    assert Assemble(t, content) == (t.codeBegin + head) + (suffix + "\n" + t.codeEnd);
    EndsWithAppended(t.codeBegin + head, suffix + "\n" + t.codeEnd);
  }

  lemma {:induction false} InFileOnlyActionsAppend(a: seq<Segment>, b: seq<Segment>)
    ensures InFileOnlyActions(a + b) == InFileOnlyActions(a) + InFileOnlyActions(b)
    decreases |a|
  {
    if a == [] {
      assert a + b == b;
    } else {
      assert (a + b)[0] == a[0];
      assert (a + b)[1..] == a[1..] + b;
      InFileOnlyActionsAppend(a[1..], b);
    }
  }

  lemma RawInertButOpenLastAppend(a: seq<Action>, b: seq<Action>)
    requires RawInert(a) && RawInertButOpenLast(b)
    ensures RawInertButOpenLast(a + b)
  {
    forall k | 0 <= k < |a + b| && (a + b)[k].Raw?
      ensures InertRaw((a + b)[k].text) || (OpenComment((a + b)[k].text) && k == |a + b| - 1)
    {
      if k >= |a| {
        assert (a + b)[k] == b[k - |a|];
      }
    }
  }

  lemma RawInertAppend(a: seq<Action>, b: seq<Action>)
    requires RawInert(a) && RawInert(b)
    ensures RawInert(a + b)
  {
    forall k | 0 <= k < |a + b| && (a + b)[k].Raw?
      ensures InertRaw((a + b)[k].text)
    {
      if k >= |a| {
        assert (a + b)[k] == b[k - |a|];
      }
    }
  }
}
