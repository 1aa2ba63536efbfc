/** TEXT escaping for property values (section 3.3.11 of RFC 5545), as `escape` performs it:
    four `str.replace` calls, backslash first, then comma, semicolon and newline. */
module Escaping {

  /** `s.replace(c, rep)` for a one-character pattern: each occurrence of `c` becomes `rep`. */
  function ReplaceChar(s: string, c: char, rep: string): string {
    if |s| == 0 then "" else (if s[0] == c then rep else [s[0]]) + ReplaceChar(s[1..], c, rep)
  }

  lemma {:induction false} ReplaceCharAppend(a: string, b: string, c: char, rep: string)
    ensures ReplaceChar(a + b, c, rep) == ReplaceChar(a, c, rep) + ReplaceChar(b, c, rep)
  {
    if |a| == 0 {
      assert a + b == b;
    } else {
      assert (a + b)[0] == a[0] && (a + b)[1..] == a[1..] + b;
      ReplaceCharAppend(a[1..], b, c, rep);
    }
  }

  /** A replacement that does not itself hold `c` leaves no `c` behind. */
  lemma {:induction false} ReplaceCharRemoves(s: string, c: char, rep: string)
    requires c !in rep
    ensures c !in ReplaceChar(s, c, rep)
  {
    if |s| > 0 {
      ReplaceCharRemoves(s[1..], c, rep);
    }
  }

  /** A non-empty replacement never shortens the text. */
  lemma {:induction false} ReplaceCharLengthens(s: string, c: char, rep: string)
    requires |rep| >= 1
    ensures |ReplaceChar(s, c, rep)| >= |s|
  {
    if |s| > 0 {
      ReplaceCharLengthens(s[1..], c, rep);
    }
  }

  /** `escape(text)`: no line feed survives, and the text never gets shorter. */
  function Escape(text: string): (r: string)
    ensures '\n' !in r && |r| >= |text|
  {
    var s1 := ReplaceChar(text, '\\', "\\\\");
    var s2 := ReplaceChar(s1, ',', "\\,");
    var s3 := ReplaceChar(s2, ';', "\\;");
    ReplaceCharLengthens(text, '\\', "\\\\");
    ReplaceCharLengthens(s1, ',', "\\,");
    ReplaceCharLengthens(s2, ';', "\\;");
    ReplaceCharLengthens(s3, '\n', "\\n");
    ReplaceCharRemoves(s3, '\n', "\\n");
    ReplaceChar(s3, '\n', "\\n")
  }

  predicate IsSpecial(c: char) {
    c == '\\' || c == ',' || c == ';' || c == '\n'
  }

  /** The escape of one character: a backslash before `\`, `,` and `;`, `\n` for a newline, otherwise itself. */
  function EscapeChar(c: char): (r: string)
    ensures |r| == (if IsSpecial(c) then 2 else 1)
  {
    if c == '\n' then "\\n" else if IsSpecial(c) then ['\\', c] else [c]
  }

  /** The reference escaper: each character escaped on its own, left to right. */
  function EscapeEach(s: string): string {
    if |s| == 0 then "" else EscapeChar(s[0]) + EscapeEach(s[1..])
  }

  lemma EscapeAppend(a: string, b: string)
    ensures Escape(a + b) == Escape(a) + Escape(b)
  {
    var a1, b1 := ReplaceChar(a, '\\', "\\\\"), ReplaceChar(b, '\\', "\\\\");
    ReplaceCharAppend(a, b, '\\', "\\\\");
    var a2, b2 := ReplaceChar(a1, ',', "\\,"), ReplaceChar(b1, ',', "\\,");
    ReplaceCharAppend(a1, b1, ',', "\\,");
    var a3, b3 := ReplaceChar(a2, ';', "\\;"), ReplaceChar(b2, ';', "\\;");
    ReplaceCharAppend(a2, b2, ';', "\\;");
    ReplaceCharAppend(a3, b3, '\n', "\\n");
  }

  lemma ReplaceCharSingle(c: char, x: char, rep: string)
    ensures ReplaceChar([c], x, rep) == if c == x then rep else [c]
  {
    assert [c][1..] == [];
  }

  lemma {:induction false} ReplaceCharAbsent(s: string, x: char, rep: string)
    requires x !in s
    ensures ReplaceChar(s, x, rep) == s
  {
    if |s| > 0 {
      assert s == [s[0]] + s[1..];
      ReplaceCharAbsent(s[1..], x, rep);
    }
  }

  /** On a single character the four replacements amount to EscapeChar: since the backslash goes first,
      the backslashes the later replacements insert are never doubled. */
  lemma EscapeOneChar(c: char)
    ensures Escape([c]) == EscapeChar(c)
  {
    var s1 := ReplaceChar([c], '\\', "\\\\");
    var s2 := ReplaceChar(s1, ',', "\\,");
    var s3 := ReplaceChar(s2, ';', "\\;");
    ReplaceCharSingle(c, '\\', "\\\\");
    if c == '\\' {
      assert s1 == ['\\', '\\'];
      ReplaceCharAbsent(s1, ',', "\\,");
      ReplaceCharAbsent(s1, ';', "\\;");
      ReplaceCharAbsent(s1, '\n', "\\n");
    } else {
      ReplaceCharSingle(c, ',', "\\,");
      if c == ',' {
        assert s2 == ['\\', ','];
        ReplaceCharAbsent(s2, ';', "\\;");
        ReplaceCharAbsent(s2, '\n', "\\n");
      } else {
        ReplaceCharSingle(c, ';', "\\;");
        if c == ';' {
          assert s3 == ['\\', ';'];
          ReplaceCharAbsent(s3, '\n', "\\n");
        } else {
          ReplaceCharSingle(c, '\n', "\\n");
        }
      }
    }
  }

  /** The chain of replacements equals the character-by-character reference escaper. */
  lemma {:induction false} EscapeIsCharwise(s: string)
    ensures Escape(s) == EscapeEach(s)
  {
    if |s| == 0 {
    } else {
      assert s == [s[0]] + s[1..];
      EscapeAppend([s[0]], s[1..]);
      EscapeOneChar(s[0]);
      EscapeIsCharwise(s[1..]);
    }
  }

  /** Reading escaped TEXT back: a backslash and the next character stand for that character
      (`\n` for a newline). */
  function Unescape(t: string): string
    decreases |t|
  {
    if |t| == 0 then ""
    else if t[0] == '\\' && |t| >= 2 then [if t[1] == 'n' then '\n' else t[1]] + Unescape(t[2..])
    else [t[0]] + Unescape(t[1..])
  }

  lemma {:induction false} UnescapeEscapeEach(s: string)
    ensures Unescape(EscapeEach(s)) == s
  {
    if |s| > 0 {
      var e, rest := EscapeChar(s[0]), EscapeEach(s[1..]);
      UnescapeEscapeEach(s[1..]);
      if IsSpecial(s[0]) {
        assert (e + rest)[2..] == rest;
      } else {
        assert (e + rest)[1..] == rest;
      }
      assert s == [s[0]] + s[1..];
    }
  }

  /** Unescaping recovers the original text. */
  lemma UnescapeEscape(s: string)
    ensures Unescape(Escape(s)) == s
  {
    EscapeIsCharwise(s);
    UnescapeEscapeEach(s);
  }

  /** Distinct texts escape differently. */
  lemma EscapeInjective(a: string, b: string)
    requires Escape(a) == Escape(b)
    ensures a == b
  {
    UnescapeEscape(a);
    UnescapeEscape(b);
  }

  function SpecialCount(s: string): nat {
    if |s| == 0 then 0 else (if IsSpecial(s[0]) then 1 else 0) + SpecialCount(s[1..])
  }

  /** Escaping adds one character per backslash, comma, semicolon and newline, and no other. */
  lemma {:induction false} EscapeLength(s: string)
    ensures |Escape(s)| == |s| + SpecialCount(s)
  {
    EscapeIsCharwise(s);
    EscapeEachLength(s);
  }

  lemma {:induction false} EscapeEachLength(s: string)
    ensures |EscapeEach(s)| == |s| + SpecialCount(s)
  {
    if |s| > 0 {
      EscapeEachLength(s[1..]);
    }
  }

  /** Well-formed escaped TEXT: every backslash begins one of `\\`, `\,`, `\;`, `\n`,
      and no comma, semicolon or newline stands bare. */
  predicate EscapedText(t: string)
    decreases |t|
  {
    if |t| == 0 then true
    else if t[0] == '\\' then
      |t| >= 2 && (t[1] == '\\' || t[1] == ',' || t[1] == ';' || t[1] == 'n') && EscapedText(t[2..])
    else !IsSpecial(t[0]) && EscapedText(t[1..])
  }

  lemma {:induction false} EscapeEachIsEscapedText(s: string)
    ensures EscapedText(EscapeEach(s))
  {
    if |s| > 0 {
      var e, rest := EscapeChar(s[0]), EscapeEach(s[1..]);
      EscapeEachIsEscapedText(s[1..]);
      if IsSpecial(s[0]) {
        assert (e + rest)[2..] == rest;
      } else {
        assert (e + rest)[1..] == rest;
      }
    }
  }

  /** Whatever the input, escape produces well-formed TEXT. */
  lemma EscapeIsEscapedText(s: string)
    ensures EscapedText(Escape(s))
  {
    EscapeIsCharwise(s);
    EscapeEachIsEscapedText(s);
  }

  /** Well-formed TEXT holds no line feed, so an escaped value cannot end its content line early
      (a carriage return is not escaped and passes through). */
  lemma {:induction false} EscapedTextHasNoNewline(t: string)
    requires EscapedText(t)
    ensures '\n' !in t
    decreases |t|
  {
    if |t| > 0 {
      if t[0] == '\\' {
        EscapedTextHasNoNewline(t[2..]);
        assert t == t[..2] + t[2..];
      } else {
        EscapedTextHasNoNewline(t[1..]);
        assert t == [t[0]] + t[1..];
      }
    }
  }

  /** Text without the four special characters passes through unchanged. */
  lemma {:induction false} EscapeKeepsPlainText(s: string)
    requires forall i :: 0 <= i < |s| ==> !IsSpecial(s[i])
    ensures Escape(s) == s
  {
    EscapeIsCharwise(s);
    EscapeEachKeepsPlainText(s);
  }

  lemma {:induction false} EscapeEachKeepsPlainText(s: string)
    requires forall i :: 0 <= i < |s| ==> !IsSpecial(s[i])
    ensures EscapeEach(s) == s
  {
    if |s| > 0 {
      EscapeEachKeepsPlainText(s[1..]);
      assert s == [s[0]] + s[1..];
    }
  }

  lemma EscapeExample()
    ensures Escape("a,b") == "a\\,b"
  {
    assert "a,b" == ['a'] + ([','] + ['b']);
    EscapeAppend(['a'], [','] + ['b']);
    EscapeAppend([','], ['b']);
    EscapeOneChar('a');
    EscapeOneChar(',');
    EscapeOneChar('b');
  }
}
