/** The generated JavaScript file (`class JsFile`): a text that starts as a
    single line break and grows by raw pieces of CSS text and by statements
    that append an escaped value to the accumulator `_<constName>`. */
module JsFiles {
  import opened Text
  import opened Escaping
  import opened Templates

  /** `s.replace(/ +$/, '')`: `s` without its trailing run of spaces. */
  function TrimTrailingSpaces(s: string): (r: string)
    ensures |r| <= |s| && r == s[..|r|]
    ensures forall i :: |r| <= i < |s| ==> s[i] == ' '
    ensures r == [] || r[|r| - 1] != ' '
  {
    if s != [] && s[|s| - 1] == ' ' then TrimTrailingSpaces(s[..|s| - 1]) else s
  }

  /** The statement `_<constName>+="<escaped value>"`: it extends the
      accumulator, closes its literal with a quote, and stays on one line
      whenever the constant name does. */
  function ConstStatement(constName: string, value: string): (r: string)
    ensures StartsWith(r, "_" + constName + "+=\"") && EndsWith(r, "\"")
    ensures '\n' !in constName ==> '\n' !in r
  {
    var head := "_" + constName + "+=\"";
    var r := head + Escape(value) + "\"";
    assert r == head + (Escape(value) + "\"");
    StartsWithAppended(head, Escape(value) + "\"");
    EndsWithAppended(head + Escape(value), "\"");
    r
  }

  predicate EndsWithLineBreak(s: string) {
    s != [] && s[|s| - 1] == '\n'
  }

  /** The content after `pushConstValue(value)`: trailing spaces dropped, a
      line break added unless the content already ends with one, then the
      statement. */
  function WithConstValue(content: string, constName: string, value: string): (r: string)
    ensures StartsWith(r, TrimTrailingSpaces(content))
    ensures EndsWith(r, "\n" + ConstStatement(constName, value))
  {
    var trimmed := TrimTrailingSpaces(content);
    var line := if EndsWithLineBreak(trimmed) then trimmed else trimmed + "\n";
    var statement := ConstStatement(constName, value);
    assert line == trimmed + line[|trimmed|..];
    StartsWithAppended(trimmed, line[|trimmed|..] + statement);
    assert line + statement == line[..|line| - 1] + ("\n" + statement);
    EndsWithAppended(line[..|line| - 1], "\n" + statement);
    line + statement
  }

  /** The statement starts a line of its own, at the end of the content;
      everything before that line is the old content up to its trailing
      spaces, so only spaces are removed and at most one line break is added. */
  lemma WithConstValueShape(content: string, constName: string, value: string)
    ensures var r := WithConstValue(content, constName, value);
      var statement := ConstStatement(constName, value);
      var k := |TrimTrailingSpaces(content)|;
      && |statement| < |r|
      && r[|r| - |statement|..] == statement
      && r[|r| - |statement| - 1] == '\n'
      && r[..k] == content[..k]
      && (forall i :: k <= i < |content| ==> content[i] == ' ')
      && |r| - |statement| - k <= 1
  {
    var r := WithConstValue(content, constName, value);
    var trimmed := TrimTrailingSpaces(content);
    var line := if EndsWithLineBreak(trimmed) then trimmed else trimmed + "\n";
    assert r == line + ConstStatement(constName, value);
    assert r[..|trimmed|] == line[..|trimmed|] == trimmed;
    assert r[|line|..] == ConstStatement(constName, value);
  }

  /** A content that starts with a line break keeps it: the leading line
      break is not a space, so trimming never reaches it. */
  lemma WithConstValueKeepsFirstLine(content: string, constName: string, value: string)
    requires content != [] && content[0] == '\n'
    ensures WithConstValue(content, constName, value)[0] == '\n'
  {
    var trimmed := TrimTrailingSpaces(content);
    assert content[0] != ' ';
    assert trimmed[0] == '\n';
  }

  /** The whole generated module: the template's opening code, the content,
      a line break and the template's closing code. */
  function Assemble(template: JsTemplate, content: string): (r: string)
    ensures |r| == |template.codeBegin| + |content| + 1 + |template.codeEnd|
    ensures StartsWith(r, template.codeBegin)
    ensures EndsWith(r, "\n" + template.codeEnd)
    ensures r[|template.codeBegin|..|r| - |template.codeEnd| - 1] == content
  {
    var r := template.codeBegin + content + "\n" + template.codeEnd;
    assert r[..|template.codeBegin|] == template.codeBegin;
    assert r[|template.codeBegin| + |content|..] == "\n" + template.codeEnd;
    r
  }

  class JsFile {
    const format: Format
    const exports: Exports
    const constName: string
    var content: string

    /** The content always starts with the line break it was created with. */
    ghost predicate Valid()
      reads this
    {
      content != [] && content[0] == '\n'
    }

    constructor(format: Format, exports: Exports, constName: string)
      ensures this.format == format && this.exports == exports && this.constName == constName
      ensures content == "\n"
      ensures Valid()
    {
      this.format := format;
      this.exports := exports;
      this.constName := constName;
      content := "\n";
    }

    method PushContent(text: string)
      requires Valid()
      modifies this
      ensures Valid()
      ensures content == old(content) + text
    {
      content := content + text;
    }

    method PushConstValue(value: string)
      requires Valid()
      modifies this
      ensures Valid()
      ensures content == WithConstValue(old(content), constName, value)
    {
      WithConstValueKeepsFirstLine(content, constName, value);
      content := TrimTrailingSpaces(content);
      if !EndsWithLineBreak(content) {
        content := content + "\n";
      }
      content := content + ConstStatement(constName, value);
    }

    /** `getContent()`: the content wrapped in the template of this file's
        format, export mode and constant name. */
    function GetContent(): (r: string)
      reads this
      ensures r == Assemble(GetJsTemplate(format, exports, constName), content)
    {
      Assemble(GetJsTemplate(format, exports, constName), content)
    }
  }

  /** The module text `r` built on template `t`: the content sits between the
      accumulator's empty declaration and the declaration of the exported
      constant, each on a line of its own. */
  predicate Framed(r: string, t: JsTemplate, constName: string) {
    var b := |t.codeBegin|;
    var e := |r| - |t.codeEnd|;
    && b + 2 <= e <= |r|
    && EndsWith(r[..b], AccumulatorInit(constName))
    && r[b] == '\n'
    && StartsWith(r[e..], "var " + constName + "=")
    && r[e - 1] == '\n'
  }

  /** Every generated module is framed so: the content starts with the line
      break the file was created with. */
  lemma GeneratedModuleFrame(format: Format, exports: Exports, constName: string, content: string)
    requires content != [] && content[0] == '\n'
    ensures Framed(Assemble(GetJsTemplate(format, exports, constName), content),
      GetJsTemplate(format, exports, constName), constName)
  {
    AssembleFrame(GetJsTemplate(format, exports, constName), constName, content);
  }

  lemma AssembleFrame(t: JsTemplate, constName: string, content: string)
    requires content != [] && content[0] == '\n'
    requires EndsWith(t.codeBegin, AccumulatorInit(constName))
    requires StartsWith(t.codeEnd, "var " + constName + "=")
    ensures Framed(Assemble(t, content), t, constName)
  {
    var r := Assemble(t, content);
    var b := |t.codeBegin|;
    assert r[..b] == t.codeBegin;
    assert r[b] == r[b..|r| - |t.codeEnd| - 1][0];
    assert r[|r| - |t.codeEnd| - 1..] == "\n" + t.codeEnd;
    assert r[|r| - |t.codeEnd|..] == t.codeEnd;
  }
}
