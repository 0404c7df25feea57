/** How `JsFile.pushConstValue` turns a CSS text into the body of a
    double-quoted JavaScript string literal: three global replacements applied
    one after the other, first `"` to `\"`, then each CR LF pair to `\n`, then
    each remaining CR or LF to `\n`. */
module Escaping {
  import opened Text

  /** `s.replace(/"/g, '\\"')` (EscapeQuotesKeeps). */
  function EscapeQuotes(s: string): string {
    if s == [] then []
    else (if s[0] == '"' then ['\\', '"'] else [s[0]]) + EscapeQuotes(s[1..])
  }

  /** `s.replace(/\r\n/g, '\\n')`: pairs are matched left to right without
      overlap (ReplaceCrlfKeeps). */
  function ReplaceCrlf(s: string): string {
    if |s| >= 2 && s[0] == '\r' && s[1] == '\n' then ['\\', 'n'] + ReplaceCrlf(s[2..])
    else if s == [] then []
    else [s[0]] + ReplaceCrlf(s[1..])
  }

  predicate IsLineBreak(c: char) {
    c == '\n' || c == '\r'
  }

  /** `s.replace(/\n|\r/g, '\\n')` (ReplaceLineBreaksClears). */
  function ReplaceLineBreaks(s: string): string {
    if s == [] then []
    else (if IsLineBreak(s[0]) then ['\\', 'n'] else [s[0]]) + ReplaceLineBreaks(s[1..])
  }

  /** The escaped constant value, exactly as the three passes produce it: it
      holds no raw line break, so the string literal stays on one line, and a
      value with no quote and no line break is written as it is. */
  function Escape(value: string): (r: string)
    ensures '\n' !in r && '\r' !in r
    ensures '"' !in value && '\n' !in value && '\r' !in value ==> r == value
  {
    var quoted := EscapeQuotes(value);
    var paired := ReplaceCrlf(quoted);
    EscapeQuotesKeeps(value);
    ReplaceCrlfKeeps(quoted);
    ReplaceLineBreaksClears(paired);
    ReplaceLineBreaks(paired)
  }

  /** The first pass never shortens the text, and leaves it unchanged exactly
      when it holds no quote. */
  lemma {:induction false} EscapeQuotesKeeps(s: string)
    ensures |s| <= |EscapeQuotes(s)|
    ensures EscapeQuotes(s) == s <==> '"' !in s
  {
    if s != [] {
      EscapeQuotesKeeps(s[1..]);
      assert s == [s[0]] + s[1..];
    }
  }

  /** The second pass turns each pair into two characters, so it keeps the
      length, and leaves a text without CR unchanged. */
  lemma {:induction false} ReplaceCrlfKeeps(s: string)
    ensures |ReplaceCrlf(s)| == |s|
    ensures '\r' !in s ==> ReplaceCrlf(s) == s
  {
    if |s| >= 2 && s[0] == '\r' && s[1] == '\n' {
      ReplaceCrlfKeeps(s[2..]);
    } else if s != [] {
      ReplaceCrlfKeeps(s[1..]);
      assert s == [s[0]] + s[1..];
    }
  }

  /** The third pass leaves no raw line break, and leaves the text unchanged
      exactly when it holds none. */
  lemma {:induction false} ReplaceLineBreaksClears(s: string)
    ensures '\n' !in ReplaceLineBreaks(s) && '\r' !in ReplaceLineBreaks(s)
    ensures |s| <= |ReplaceLineBreaks(s)|
    ensures ReplaceLineBreaks(s) == s <==> '\n' !in s && '\r' !in s
  {
    if s != [] {
      ReplaceLineBreaksClears(s[1..]);
      assert s == [s[0]] + s[1..];
    }
  }

  /** A one-pass reading of the same escaping, character by character; every
      output is free of raw line breaks and has no quote without a backslash
      in front of it. */
  function EscapeSpec(value: string): (r: string)
    ensures forall i :: 0 <= i < |r| ==> !IsLineBreak(r[i])
    ensures forall i :: 0 <= i < |r| && r[i] == '"' ==> 0 < i && r[i - 1] == '\\'
    ensures r != [] ==> r[0] != '"'
  {
    if value == [] then []
    else if value[0] == '"' then ['\\', '"'] + EscapeSpec(value[1..])
    else if |value| >= 2 && value[0] == '\r' && value[1] == '\n' then ['\\', 'n'] + EscapeSpec(value[2..])
    else if IsLineBreak(value[0]) then ['\\', 'n'] + EscapeSpec(value[1..])
    else [value[0]] + EscapeSpec(value[1..])
  }

  lemma {:induction false} ReplaceLineBreaksAppend(a: string, b: string)
    ensures ReplaceLineBreaks(a + b) == ReplaceLineBreaks(a) + ReplaceLineBreaks(b)
    decreases |a|
  {
    if a != [] {
      assert (a + b)[1..] == a[1..] + b;
      ReplaceLineBreaksAppend(a[1..], b);
    } else {
      assert a + b == b;
    }
  }

  /** The first character `EscapeQuotes` emits is a backslash or the input's first character. */
  lemma EscapeQuotesHead(s: string)
    requires s != []
    ensures EscapeQuotes(s) != []
    ensures EscapeQuotes(s)[0] == (if s[0] == '"' then '\\' else s[0])
  {
  }

  /** The three passes agree with the one-pass reading. */
  lemma {:induction false} EscapeMatchesSpec(value: string)
    ensures Escape(value) == EscapeSpec(value)
    decreases |value|
  {
    if value != [] {
      EscapeStep(value);
      EscapeSpecStep(value);
      EscapeMatchesSpec(value[Consumed(value)..]);
    }
  }

  /** One step of the three passes: the front of `value` becomes EscapeHead and
      the passes carry on over the rest. */
  lemma EscapeStep(value: string)
    requires value != []
    ensures Escape(value) == EscapeHead(value) + Escape(value[Consumed(value)..])
  {
    if value[0] == '"' {
      EscapeStepQuote(value[1..]);
      assert value == ['"'] + value[1..];
    } else if |value| >= 2 && value[0] == '\r' && value[1] == '\n' {
      EscapeStepCrlf(value[2..]);
      assert value == ['\r', '\n'] + value[2..];
    } else {
      EscapeStepOther(value[0], value[1..]);
      assert value == [value[0]] + value[1..];
    }
  }

  /** A quote becomes a backslash and the quote. */
  lemma EscapeStepQuote(tail: string)
    ensures Escape(['"'] + tail) == ['\\', '"'] + Escape(tail)
  {
    var q := EscapeQuotes(tail);
    EscapeQuotesCons('"', tail);
    ReplaceCrlfKeepsPair('\\', '"', q);
    ReplaceLineBreaksAppend(['\\', '"'], ReplaceCrlf(q));
  }

  /** Two characters that are not a CR LF pair, and whose second is not CR,
      are kept by `ReplaceCrlf`. */
  lemma ReplaceCrlfKeepsPair(a: char, b: char, tail: string)
    requires a != '\r' && b != '\r'
    ensures ReplaceCrlf([a, b] + tail) == [a, b] + ReplaceCrlf(tail)
  {
    assert [a, b] + tail == [a] + ([b] + tail);
    ReplaceCrlfCons(a, [b] + tail);
    ReplaceCrlfCons(b, tail);
    assert [a] + ([b] + ReplaceCrlf(tail)) == [a, b] + ReplaceCrlf(tail);
  }

  /** A CR LF pair becomes exactly one `\n` marker. */
  lemma EscapeStepCrlf(rest: string)
    ensures Escape(['\r', '\n'] + rest) == ['\\', 'n'] + Escape(rest)
  {
    var q := EscapeQuotes(rest);
    EscapeQuotesCons('\n', rest);
    EscapeQuotesCons('\r', ['\n'] + rest);
    assert ['\r', '\n'] + rest == ['\r'] + (['\n'] + rest);
    assert ['\r'] + (['\n'] + q) == ['\r', '\n'] + q;
    ReplaceCrlfPair(q);
    ReplaceLineBreaksAppend(['\\', 'n'], ReplaceCrlf(q));
  }

  /** A lone CR or LF becomes a `\n` marker; any other character is kept. */
  lemma EscapeStepOther(c: char, tail: string)
    requires c != '"' && !(c == '\r' && tail != [] && tail[0] == '\n')
    ensures Escape([c] + tail) == (if IsLineBreak(c) then ['\\', 'n'] else [c]) + Escape(tail)
  {
    var q := EscapeQuotes(tail);
    EscapeQuotesCons(c, tail);
    if c == '\r' && tail != [] {
      EscapeQuotesHead(tail);
    }
    ReplaceCrlfCons(c, q);
    ReplaceLineBreaksAppend([c], ReplaceCrlf(q));
    assert ReplaceLineBreaks([c]) == (if IsLineBreak(c) then ['\\', 'n'] else [c]) by {
      assert [c][1..] == [];
    }
  }

  lemma EscapeQuotesCons(c: char, tail: string)
    ensures EscapeQuotes([c] + tail) == (if c == '"' then ['\\', '"'] else [c]) + EscapeQuotes(tail)
  {
    assert ([c] + tail)[1..] == tail;
  }

  /** A character that does not start a CR LF pair is kept by `ReplaceCrlf`. */
  lemma ReplaceCrlfCons(c: char, tail: string)
    requires !(c == '\r' && tail != [] && tail[0] == '\n')
    ensures ReplaceCrlf([c] + tail) == [c] + ReplaceCrlf(tail)
  {
    assert ([c] + tail)[1..] == tail;
  }

  lemma ReplaceCrlfPair(tail: string)
    ensures ReplaceCrlf(['\r', '\n'] + tail) == ['\\', 'n'] + ReplaceCrlf(tail)
  {
    assert (['\r', '\n'] + tail)[2..] == tail;
  }

  /** The text the generated string literal stands for: every CR LF pair and
      every other CR or LF becomes one LF. */
  function Normalize(value: string): (r: string)
    ensures forall i :: 0 <= i < |r| ==> r[i] != '\r'
    ensures |r| <= |value|
  {
    if value == [] then []
    else if |value| >= 2 && value[0] == '\r' && value[1] == '\n' then ['\n'] + Normalize(value[2..])
    else if IsLineBreak(value[0]) then ['\n'] + Normalize(value[1..])
    else [value[0]] + Normalize(value[1..])
  }

  /** Reads the body of a double-quoted JavaScript string literal, for the
      escapes `\n`, `\"` and `\\`; `None` when the body ends the literal early,
      holds a raw line break or uses an escape this reader does not cover. */
  function Decode(body: string): Option<string> {
    if body == [] then Some([])
    else if body[0] == '\\' then
      if |body| < 2 then None
      else
        var e := body[1];
        if e == 'n' || e == '"' || e == '\\' then
          match Decode(body[2..])
          case Some(t) => Some([if e == 'n' then '\n' else e] + t)
          case None => None
        else None
    else if body[0] == '"' || IsLineBreak(body[0]) then None
    else
      match Decode(body[1..])
      case Some(t) => Some([body[0]] + t)
      case None => None
  }

  /** For a value without backslashes, the generated literal stands for the
      value with its line breaks normalised to LF. */
  lemma {:induction false} DecodeEscape(value: string)
    requires '\\' !in value
    ensures Decode(Escape(value)) == Some(Normalize(value))
  {
    EscapeMatchesSpec(value);
    DecodeEscapeSpec(value);
  }

  lemma {:induction false} DecodeEscapeSpec(value: string)
    requires '\\' !in value
    ensures Decode(EscapeSpec(value)) == Some(Normalize(value))
    decreases |value|
  {
    if value != [] {
      var e := EscapeSpec(value);
      if value[0] == '"' {
        assert '\\' !in value[1..];
        DecodeEscapeSpec(value[1..]);
        assert e[2..] == EscapeSpec(value[1..]);
      } else if |value| >= 2 && value[0] == '\r' && value[1] == '\n' {
        assert '\\' !in value[2..];
        DecodeEscapeSpec(value[2..]);
        assert e[2..] == EscapeSpec(value[2..]);
      } else if IsLineBreak(value[0]) {
        assert '\\' !in value[1..];
        DecodeEscapeSpec(value[1..]);
        assert e[2..] == EscapeSpec(value[1..]);
      } else {
        assert value[0] != '\\';
        assert '\\' !in value[1..];
        DecodeEscapeSpec(value[1..]);
        assert e[1..] == EscapeSpec(value[1..]);
      }
    }
  }

  /** Escaping loses information once backslashes are involved: a backslash
      followed by `n` and a line break give the same literal body. */
  lemma EscapeBackslashCollision()
    ensures Escape(['\\', 'n']) == Escape(['\n'])
    ensures Normalize(['\\', 'n']) != Normalize(['\n'])
  {
    EscapeMatchesSpec(['\\', 'n']);
    EscapeMatchesSpec(['\n']);
    assert ['\\', 'n'][1..] == ['n'];
  }

  /** Escaping two pieces one after the other is escaping their concatenation,
      unless a CR LF pair is split between them. */
  lemma {:induction false} EscapeAppend(a: string, b: string)
    requires !(a != [] && a[|a| - 1] == '\r' && b != [] && b[0] == '\n')
    ensures Escape(a + b) == Escape(a) + Escape(b)
  {
    EscapeMatchesSpec(a + b);
    EscapeMatchesSpec(a);
    EscapeMatchesSpec(b);
    EscapeSpecAppend(a, b);
  }

  /** How many characters of `value` one step of the escaping or normalising consumes. */
  function Consumed(value: string): (n: nat)
    requires value != []
    ensures 1 <= n <= |value|
  {
    if |value| >= 2 && value[0] == '\r' && value[1] == '\n' then 2 else 1
  }

  /** What one step of EscapeSpec emits for the front of `value`. */
  function EscapeHead(value: string): string
    requires value != []
  {
    if value[0] == '"' then ['\\', '"'] else if IsLineBreak(value[0]) then ['\\', 'n'] else [value[0]]
  }

  /** What one step of Normalize emits for the front of `value`. */
  function NormalizeHead(value: string): string
    requires value != []
  {
    if IsLineBreak(value[0]) then ['\n'] else [value[0]]
  }

  /** EscapeSpec, one step unfolded. */
  lemma EscapeSpecStep(value: string)
    requires value != []
    ensures EscapeSpec(value) == EscapeHead(value) + EscapeSpec(value[Consumed(value)..])
  {
  }

  /** Normalize, one step unfolded. */
  lemma NormalizeStep(value: string)
    requires value != []
    ensures Normalize(value) == NormalizeHead(value) + Normalize(value[Consumed(value)..])
  {
  }

  /** The first step over `a + b` is the first step over `a` when no CR LF pair is split. */
  lemma StepAppend(a: string, b: string)
    requires a != [] && !(a[|a| - 1] == '\r' && b != [] && b[0] == '\n')
    ensures Consumed(a + b) == Consumed(a)
    ensures EscapeHead(a + b) == EscapeHead(a) && NormalizeHead(a + b) == NormalizeHead(a)
    ensures (a + b)[Consumed(a)..] == a[Consumed(a)..] + b
  {
    assert (a + b)[0] == a[0];
    if |a| >= 2 {
      assert (a + b)[1] == a[1];
    }
  }

  lemma {:induction false} EscapeSpecAppend(a: string, b: string)
    requires !(a != [] && a[|a| - 1] == '\r' && b != [] && b[0] == '\n')
    ensures EscapeSpec(a + b) == EscapeSpec(a) + EscapeSpec(b)
    decreases |a|
  {
    if a == [] {
      assert a + b == b;
    } else {
      var n := Consumed(a);
      EscapeSpecStep(a + b);
      EscapeSpecStep(a);
      StepAppend(a, b);
      EscapeSpecAppend(a[n..], b);
      ConcatAssoc(EscapeHead(a), EscapeSpec(a[n..]), EscapeSpec(b));
    }
  }

  /** Normalising two pieces one after the other is normalising their
      concatenation, unless a CR LF pair is split between them. */
  lemma {:induction false} NormalizeAppend(a: string, b: string)
    requires !(a != [] && a[|a| - 1] == '\r' && b != [] && b[0] == '\n')
    ensures Normalize(a + b) == Normalize(a) + Normalize(b)
    decreases |a|
  {
    if a == [] {
      assert a + b == b;
    } else {
      var n := Consumed(a);
      NormalizeStep(a + b);
      NormalizeStep(a);
      StepAppend(a, b);
      NormalizeAppend(a[n..], b);
      ConcatAssoc(NormalizeHead(a), Normalize(a[n..]), Normalize(b));
    }
  }
}
