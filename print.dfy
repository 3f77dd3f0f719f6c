/**
 * The report shaping of src/utils/print.ts: the width rule for the wrapped
 * table columns, the header row for a requested column subset, the
 * conversion of row tuples into row objects, and the assembly of the
 * machine-readable document. The table rendering itself and the JSON text
 * are left to the console.
 */
module Print {
  import opened Base
  import opened Text
  import opened Types
  import opened Runtime

  /** The security report's columns in canonical order. */
  const SecurityReportHeaders: seq<SecurityReportHeader> :=
    [IdHeader, ModuleHeader, TitleHeader, PathsHeader, SeverityHeader, UrlHeader, ExceptedHeader]

  /** The exception report's columns in canonical order. */
  const ExceptionReportHeaders: seq<ExceptionReportHeader> :=
    [ExIdHeader, StatusHeader, ExpiryHeader, NotesHeader]

  /** Which row-object property each security report column fills. */
  function SecurityHeaderKey(h: SecurityReportHeader): SecurityReportKey
  {
    match h
    case IdHeader => IdKey
    case ModuleHeader => ModuleKey
    case TitleHeader => TitleKey
    case PathsHeader => PathsKey
    case SeverityHeader => SeverityKey
    case UrlHeader => UrlKey
    case ExceptedHeader => IsExceptedKey
  }

  /** Which row-object property each exception report column fills. */
  function ExceptionHeaderKey(h: ExceptionReportHeader): ExceptionReportKey
  {
    match h
    case ExIdHeader => ExIdKey
    case StatusHeader => StatusKey
    case ExpiryHeader => ExpiryKey
    case NotesHeader => NotesKey
  }

  /** The property names of a security row object, column by column. */
  const SecurityReportKeys: seq<string> := ["id", "module", "title", "paths", "severity", "url", "isExcepted"]

  /** The property names of an exception row object, column by column. */
  const ExceptionReportKeys: seq<string> := ["id", "status", "expiry", "notes"]

  /** The key lists are the header lists mapped through the header-to-key tables, position by position. */
  lemma KeysFollowHeaders()
    ensures |SecurityReportKeys| == |SecurityReportHeaders|
    ensures forall i :: 0 <= i < |SecurityReportHeaders| ==> SecurityReportKeys[i] == SecurityHeaderKey(SecurityReportHeaders[i]).Name()
    ensures |ExceptionReportKeys| == |ExceptionReportHeaders|
    ensures forall i :: 0 <= i < |ExceptionReportHeaders| ==> ExceptionReportKeys[i] == ExceptionHeaderKey(ExceptionReportHeaders[i]).Name()
  {
  }

  // ---------------------------------------------------------------------
  // Measuring a cell
  // ---------------------------------------------------------------------

  /** The escape character that opens a terminal colour code. */
  const Esc: char := '\U{1B}'

  function HexDigit(d: nat): char
    requires d < 16
  {
    "0123456789abcdef"[d]
  }

  /** One character as `JSON.stringify` writes it inside a string literal. */
  function EscapeChar(c: char): string
  {
    var n := c as int;
    if c == '"' then "\\\""
    else if c == '\\' then "\\\\"
    else if n == 0x08 then "\\b"
    else if n == 0x09 then "\\t"
    else if n == 0x0A then "\\n"
    else if n == 0x0C then "\\f"
    else if n == 0x0D then "\\r"
    else if n < 0x20 then "\\u00" + [HexDigit(n / 16), HexDigit(n % 16)]
    else [c]
  }

  function Escape(s: string): string
  {
    if |s| == 0 then "" else EscapeChar(s[0]) + Escape(s[1..])
  }

  /** `JSON.stringify` of a string value. */
  function Stringify(s: string): string
  {
    "\"" + Escape(s) + "\""
  }

  /** The literal text the first colour-code pattern starts with. */
  const X1bPrefix: string := "\\x1b["
  /** The literal text the second colour-code pattern starts with. */
  const U001bPrefix: string := "\\u001b["

  /**
   * Length of the match of `<prefix>\d{1,2}m` at the start of `t`, or 0 when
   * there is none. Two digits are tried first, then one.
   */
  function CodeMatchLength(t: string, prefix: string): (k: nat)
    ensures k == 0 || (|prefix| + 2 <= k <= |prefix| + 3 && k <= |t|)
  {
    var p := |prefix|;
    if |t| >= p + 2 && t[..p] == prefix && IsDigit(t[p]) then
      if |t| >= p + 3 && IsDigit(t[p + 1]) && t[p + 2] == 'm' then p + 3
      else if t[p + 1] == 'm' then p + 2
      else 0
    else 0
  }

  /** `t` starts with a match of `<prefix>\d{1,2}m` of length `k`. */
  predicate CodeAt(t: string, prefix: string, k: int)
  {
    && |prefix| + 2 <= k <= |prefix| + 3 && k <= |t|
    && t[..|prefix|] == prefix && t[k - 1] == 'm'
    && forall i :: |prefix| <= i < k - 1 ==> IsDigit(t[i])
  }

  /**
   * A match found at the start is the prefix, one or two digits and `m`;
   * one of either length is found; and two digits win over one.
   */
  lemma CodeMatchShape(t: string, prefix: string)
    ensures var k := CodeMatchLength(t, prefix);
      && (k > 0 ==> CodeAt(t, prefix, k))
      && (CodeAt(t, prefix, |prefix| + 2) || CodeAt(t, prefix, |prefix| + 3) ==> k > 0)
      && (CodeAt(t, prefix, |prefix| + 3) ==> k == |prefix| + 3)
  {
    var p := |prefix|;
    if CodeAt(t, prefix, p + 2) {
      assert IsDigit(t[p]) && t[p + 1] == 'm';
    }
    if CodeAt(t, prefix, p + 3) {
      assert IsDigit(t[p]) && IsDigit(t[p + 1]) && t[p + 2] == 'm';
    }
  }

  /** `t.replace(/<prefix>\d{1,2}m/g, '')`: matches removed left to right. */
  function ReplaceCodes(t: string, prefix: string): (r: string)
    ensures |r| <= |t|
    decreases |t|
  {
    if |t| == 0 then ""
    else
      var k := CodeMatchLength(t, prefix);
      if k > 0 then ReplaceCodes(t[k..], prefix) else [t[0]] + ReplaceCodes(t[1..], prefix)
  }

  /** `t.replace(/"/g, '')`. */
  function DropQuotes(t: string): string
  {
    if |t| == 0 then "" else (if t[0] == '"' then "" else [t[0]]) + DropQuotes(t[1..])
  }

  /** The `length` of a JavaScript string: a code point above U+FFFF takes two UTF-16 units. */
  function Utf16Length(s: string): nat
  {
    if |s| == 0 then 0 else (if s[0] as int > 0xFFFF then 2 else 1) + Utf16Length(s[1..])
  }

  /** lodash `get(row, columnIndex, '')`: the cell, or the empty string when the row has none there. */
  function CellAt(row: seq<string>, columnIndex: int): string
  {
    if 0 <= columnIndex < |row| then row[columnIndex] else ""
  }

  /** The measured length of a cell: stringified, colour codes and quotes removed. */
  function CellLength(cell: string): nat
  {
    Utf16Length(DropQuotes(ReplaceCodes(ReplaceCodes(Stringify(cell), X1bPrefix), U001bPrefix)))
  }

  /** A missing cell measures 0. */
  lemma MissingCellCountsZero(row: seq<string>, columnIndex: int)
    requires !(0 <= columnIndex < |row|)
    ensures CellLength(CellAt(row, columnIndex)) == 0
  {
    assert Stringify("") == "\"\"";
    assert CodeMatchLength("\"\"", X1bPrefix) == 0;
    assert ReplaceCodes("\"\"", X1bPrefix) == "\"\"";
    assert ReplaceCodes("\"\"", U001bPrefix) == "\"\"";
  }

  // ---------------------------------------------------------------------
  // Cells made of text and colour codes
  // ---------------------------------------------------------------------

  /** A character that prints as itself: not a control character, not a backslash. */
  predicate IsPlainChar(c: char)
  {
    c as int >= 0x20 && c != '\\'
  }

  /** A piece of a coloured cell: visible text, or a colour code `ESC [ digits m`. */
  datatype Segment = Plain(text: string) | Colour(code: string)

  predicate ValidSegment(s: Segment)
  {
    match s
    case Plain(t) => forall i :: 0 <= i < |t| ==> IsPlainChar(t[i])
    case Colour(code) => 1 <= |code| <= 2 && forall i :: 0 <= i < |code| ==> IsDigit(code[i])
  }

  function RenderSegment(s: Segment): string
  {
    match s
    case Plain(t) => t
    case Colour(code) => [Esc, '['] + code + "m"
  }

  /** The cell text a sequence of segments spells. */
  function Render(segs: seq<Segment>): string
  {
    if |segs| == 0 then "" else RenderSegment(segs[0]) + Render(segs[1..])
  }

  /** The UTF-16 length of the visible text alone. */
  function VisibleLength(segs: seq<Segment>): nat
  {
    if |segs| == 0 then 0
    else (if segs[0].Plain? then Utf16Length(segs[0].text) else 0) + VisibleLength(segs[1..])
  }

  /**
   * Colour codes are not counted, and every visible character counts as its
   * UTF-16 length; an embedded double quote counts one, because the
   * backslash `JSON.stringify` puts before it stays after the quotes are
   * removed.
   */
  lemma {:induction false} ColourCodesNotCounted(segs: seq<Segment>)
    requires forall i :: 0 <= i < |segs| ==> ValidSegment(segs[i])
    ensures CellLength(Render(segs)) == VisibleLength(segs)
  {
    var e := Escape(Render(segs));
    EscapedSegments(segs);
    QuotedUnmatched(e, X1bPrefix);
    QuotedColoursRemoved(segs);
    QuotesDropped(Visible(segs));
    VisibleUnits(segs);
  }

  /** A replacement finds nothing in a quoted text whose backslashes are not followed by the pattern's second character. */
  lemma QuotedUnmatched(e: string, prefix: string)
    requires |prefix| >= 2 && prefix[0] == '\\'
    requires NoCodeStart(e, prefix[1])
    ensures ReplaceCodes("\"" + e + "\"", prefix) == "\"" + e + "\""
  {
    var t := "\"" + e + "\"";
    NoCodeStartAppend("\"", e, prefix[1]);
    NoCodeStartAppend("\"" + e, "\"", prefix[1]);
    ReplaceCodesSkip(t, "", prefix);
    assert t + "" == t;
  }

  /** The second replacement leaves the quoted visible text. */
  lemma QuotedColoursRemoved(segs: seq<Segment>)
    requires forall i :: 0 <= i < |segs| ==> ValidSegment(segs[i])
    ensures ReplaceCodes("\"" + Escape(Render(segs)) + "\"", U001bPrefix) == "\"" + Visible(segs) + "\""
  {
    SkipColourCodes(segs, "\"");
    QuotedReplacement(Escape(Render(segs)), Visible(segs));
  }

  lemma QuotedReplacement(e: string, v: string)
    requires ReplaceCodes(e + "\"", U001bPrefix) == v + ReplaceCodes("\"", U001bPrefix)
    ensures ReplaceCodes("\"" + e + "\"", U001bPrefix) == "\"" + v + "\""
  {
    var q := "\"";
    assert ReplaceCodes(q + (e + q), U001bPrefix) == q + ReplaceCodes(e + q, U001bPrefix) by {
      ReplaceCodesSkip(q, e + q, U001bPrefix);
    }
    assert ReplaceCodes(q, U001bPrefix) == q by {
      QuoteUnmatched(U001bPrefix);
    }
    assert q + e + q == q + (e + q);
    assert q + (v + q) == q + v + q;
  }

  /** A lone quote holds no colour code. */
  lemma QuoteUnmatched(prefix: string)
    requires |prefix| >= 2
    ensures ReplaceCodes("\"", prefix) == "\""
  {
    var q := "\"";
    assert CodeMatchLength(q, prefix) == 0;
    assert q[1..] == "";
    assert [q[0]] + "" == q;
  }

  /** The surrounding quotes are dropped. */
  lemma QuotesDropped(v: string)
    ensures DropQuotes("\"" + v + "\"") == DropQuotes(v)
  {
    DropQuotesAppend("\"", v);
    DropQuotesAppend("\"" + v, "\"");
    assert DropQuotes("\"") == "";
    assert DropQuotes(v) + "" == DropQuotes(v);
  }

  /** What is left of the escaped segments once the colour codes are removed. */
  function Visible(segs: seq<Segment>): string
  {
    if |segs| == 0 then ""
    else VisibleHead(segs[0]) + Visible(segs[1..])
  }

  /** Every backslash in `x` is followed, inside `x`, by a character other than `c`. */
  predicate NoCodeStart(x: string, c: char)
  {
    forall i :: 0 <= i < |x| && x[i] == '\\' ==> i + 1 < |x| && x[i + 1] != c
  }

  lemma NoCodeStartAppend(a: string, b: string, c: char)
    requires NoCodeStart(a, c) && NoCodeStart(b, c)
    ensures NoCodeStart(a + b, c)
  {
    var ab := a + b;
    forall i | 0 <= i < |ab| && ab[i] == '\\'
      ensures i + 1 < |ab| && ab[i + 1] != c
    {
      if i < |a| {
        assert a[i] == '\\';
      } else {
        assert b[i - |a|] == '\\';
      }
    }
  }

  /** No match of a backslash pattern can start inside a prefix whose backslashes are followed by other characters. */
  lemma {:induction false} ReplaceCodesSkip(x: string, y: string, prefix: string)
    requires |prefix| >= 2 && prefix[0] == '\\'
    requires NoCodeStart(x, prefix[1])
    ensures ReplaceCodes(x + y, prefix) == x + ReplaceCodes(y, prefix)
    decreases |x|
  {
    if |x| > 0 {
      var t := x + y;
      if |t| >= |prefix| {
        if x[0] == '\\' {
          assert t[..|prefix|][1] == x[1] != prefix[1];
        } else {
          assert t[..|prefix|][0] == x[0] != prefix[0];
        }
      }
      assert CodeMatchLength(t, prefix) == 0;
      assert NoCodeStart(x[1..], prefix[1]) by {
        forall i | 0 <= i < |x[1..]| && x[1..][i] == '\\'
          ensures i + 1 < |x[1..]| && x[1..][i + 1] != prefix[1]
        {
          assert x[i + 1] == '\\';
        }
      }
      assert t[1..] == x[1..] + y;
      ReplaceCodesSkip(x[1..], y, prefix);
      assert ReplaceCodes(t, prefix) == [x[0]] + (x[1..] + ReplaceCodes(y, prefix));
      AppendAssoc([x[0]], x[1..], ReplaceCodes(y, prefix));
      assert [x[0]] + x[1..] == x;
    } else {
      assert x + y == y;
    }
  }

  lemma {:induction false} EscapeAppend(a: string, b: string)
    ensures Escape(a + b) == Escape(a) + Escape(b)
    decreases |a|
  {
    if |a| > 0 {
      assert (a + b)[0] == a[0] && (a + b)[1..] == a[1..] + b;
      EscapeAppend(a[1..], b);
      assert Escape(a + b) == EscapeChar(a[0]) + Escape(a[1..] + b);
    } else {
      assert a + b == b;
    }
  }

  /** Text of plain characters other than the quote is written unchanged. */
  lemma {:induction false} EscapeUnchanged(s: string)
    requires forall i :: 0 <= i < |s| ==> IsPlainChar(s[i]) && s[i] != '"'
    ensures Escape(s) == s
    decreases |s|
  {
    if |s| > 0 {
      EscapeUnchanged(s[1..]);
      assert [s[0]] + s[1..] == s;
    }
  }

  /** Escaped plain text: its only backslashes precede a quote, and dropping the quotes keeps its length. */
  lemma {:induction false} EscapedText(s: string)
    requires forall i :: 0 <= i < |s| ==> IsPlainChar(s[i])
    ensures NoCodeStart(Escape(s), 'x') && NoCodeStart(Escape(s), 'u')
    ensures Utf16Length(DropQuotes(Escape(s))) == Utf16Length(s)
    decreases |s|
  {
    if |s| > 0 {
      EscapedText(s[1..]);
      var head := EscapeChar(s[0]);
      var tail := Escape(s[1..]);
      NoCodeStartAppend(head, tail, 'x');
      NoCodeStartAppend(head, tail, 'u');
      DropQuotesAppend(head, tail);
      Utf16Append(DropQuotes(head), DropQuotes(tail));
      if s[0] == '"' {
        assert DropQuotes(head) == "\\";
      } else {
        assert head == [s[0]];
      }
    }
  }

  /** The escape character is written as the six characters `\u001b`. */
  lemma EscapedEscChar()
    ensures Escape([Esc]) == "\\u001b"
  {
    assert [Esc][1..] == [];
    assert Escape([Esc]) == EscapeChar(Esc);
    assert HexDigit(1) == '1' && HexDigit(11) == 'b';
  }

  /** Plain text after an escape character is written unchanged. */
  lemma EscapedEsc(tail: string)
    requires forall i :: 0 <= i < |tail| ==> IsPlainChar(tail[i]) && tail[i] != '"'
    ensures Escape([Esc] + tail) == "\\u001b" + tail
  {
    EscapeAppend([Esc], tail);
    EscapedEscChar();
    EscapeUnchanged(tail);
  }

  /** The escaped form of a colour code. */
  lemma EscapedColour(code: string)
    requires 1 <= |code| <= 2 && forall i :: 0 <= i < |code| ==> IsDigit(code[i])
    ensures Escape(RenderSegment(Colour(code))) == U001bPrefix + code + "m"
  {
    var tail := ['['] + code + "m";
    forall i | 0 <= i < |tail|
      ensures IsPlainChar(tail[i]) && tail[i] != '"'
    {
      if 0 < i < |tail| - 1 {
        assert tail[i] == code[i - 1];
      }
    }
    EscapedEsc(tail);
    assert RenderSegment(Colour(code)) == [Esc] + tail by {
      AppendAssoc([Esc], ['['], code);
      AppendAssoc([Esc], ['['] + code, "m");
    }
    assert U001bPrefix + code + "m" == "\\u001b" + tail by {
      assert U001bPrefix == "\\u001b" + ['['];
      AppendAssoc("\\u001b", ['['], code);
      AppendAssoc("\\u001b", ['['] + code, "m");
    }
  }

  lemma {:induction false} EscapedSegments(segs: seq<Segment>)
    requires forall i :: 0 <= i < |segs| ==> ValidSegment(segs[i])
    ensures NoCodeStart(Escape(Render(segs)), 'x')
    decreases |segs|
  {
    if |segs| > 0 {
      EscapedSegments(segs[1..]);
      EscapeAppend(RenderSegment(segs[0]), Render(segs[1..]));
      EscapedSegment(segs[0]);
      NoCodeStartAppend(Escape(RenderSegment(segs[0])), Escape(Render(segs[1..])), 'x');
    }
  }

  /** An escaped segment holds no `\x` pair. */
  lemma EscapedSegment(s: Segment)
    requires ValidSegment(s)
    ensures NoCodeStart(Escape(RenderSegment(s)), 'x')
  {
    match s
    case Plain(t) =>
      EscapedText(t);
    case Colour(code) =>
      EscapedColour(code);
      var m := U001bPrefix + code + "m";
      assert m[0] == '\\' && m[1] == 'u';
      forall i | 1 <= i < |m|
        ensures m[i] != '\\'
      {
        if |U001bPrefix| <= i < |U001bPrefix| + |code| {
          assert m[i] == code[i - |U001bPrefix|];
        }
      }
  }

  /** Removing the `\u001b[...m` matches from the escaped segments leaves exactly the escaped text. */
  lemma {:induction false} SkipColourCodes(segs: seq<Segment>, y: string)
    requires forall i :: 0 <= i < |segs| ==> ValidSegment(segs[i])
    ensures ReplaceCodes(Escape(Render(segs)) + y, U001bPrefix) == Visible(segs) + ReplaceCodes(y, U001bPrefix)
    decreases |segs|
  {
    if |segs| == 0 {
      assert Escape(Render(segs)) + y == y;
    } else {
      SkipColourCodes(segs[1..], y);
      SkipFirstSegment(segs, y);
    }
  }

  /** The inductive step of `SkipColourCodes`: the first segment is handled on its own. */
  lemma SkipFirstSegment(segs: seq<Segment>, y: string)
    requires |segs| > 0 && ValidSegment(segs[0])
    requires ReplaceCodes(Escape(Render(segs[1..])) + y, U001bPrefix) == Visible(segs[1..]) + ReplaceCodes(y, U001bPrefix)
    ensures ReplaceCodes(Escape(Render(segs)) + y, U001bPrefix) == Visible(segs) + ReplaceCodes(y, U001bPrefix)
  {
    var z := Escape(Render(segs[1..])) + y;
    var h, v, w := VisibleHead(segs[0]), Visible(segs[1..]), ReplaceCodes(y, U001bPrefix);
    assert Escape(Render(segs)) + y == Escape(RenderSegment(segs[0])) + z by {
      EscapeFirstSegment(segs, y);
    }
    assert ReplaceCodes(Escape(RenderSegment(segs[0])) + z, U001bPrefix) == h + (v + w) by {
      SkipSegment(segs[0], z);
    }
    assert Visible(segs) == h + v;
    AppendAssoc(h, v, w);
  }

  /** The escaped cell splits after its first segment. */
  lemma EscapeFirstSegment(segs: seq<Segment>, y: string)
    requires |segs| > 0
    ensures Escape(Render(segs)) + y == Escape(RenderSegment(segs[0])) + (Escape(Render(segs[1..])) + y)
  {
    assert Render(segs) == RenderSegment(segs[0]) + Render(segs[1..]);
    EscapeAppend(RenderSegment(segs[0]), Render(segs[1..]));
    AppendAssoc(Escape(RenderSegment(segs[0])), Escape(Render(segs[1..])), y);
  }

  /** The escaped visible text of one segment. */
  function VisibleHead(s: Segment): string
  {
    if s.Plain? then Escape(s.text) else ""
  }

  lemma SkipSegment(s: Segment, z: string)
    requires ValidSegment(s)
    ensures ReplaceCodes(Escape(RenderSegment(s)) + z, U001bPrefix) == VisibleHead(s) + ReplaceCodes(z, U001bPrefix)
  {
    match s
    case Plain(t) =>
      EscapedText(t);
      ReplaceCodesSkip(Escape(t), z, U001bPrefix);
    case Colour(code) =>
      EscapedColour(code);
      ColourCodeRemoved(U001bPrefix, code, z);
      assert VisibleHead(s) + ReplaceCodes(z, U001bPrefix) == ReplaceCodes(z, U001bPrefix);
  }

  /** A complete `\u001b[<digits>m` is removed whatever follows it. */
  lemma ColourCodeRemoved(prefix: string, code: string, z: string)
    requires 1 <= |code| <= 2 && forall i :: 0 <= i < |code| ==> IsDigit(code[i])
    ensures ReplaceCodes((prefix + code + "m") + z, prefix) == ReplaceCodes(z, prefix)
  {
    var m := prefix + code + "m";
    var t := m + z;
    CodeMatchShape(t, prefix);
    var p := |prefix|;
    assert t[..p] == prefix;
    assert t[p] == code[0];
    if |code| == 2 {
      assert t[p + 1] == code[1] && t[p + 2] == 'm';
      assert CodeAt(t, prefix, p + 3);
    } else {
      assert t[p + 1] == 'm';
      assert CodeAt(t, prefix, p + 2);
    }
    assert CodeMatchLength(t, prefix) == |m|;
    assert t[|m|..] == z;
  }


  lemma {:induction false} DropQuotesAppend(a: string, b: string)
    ensures DropQuotes(a + b) == DropQuotes(a) + DropQuotes(b)
    decreases |a|
  {
    if |a| > 0 {
      assert (a + b)[0] == a[0] && (a + b)[1..] == a[1..] + b;
      DropQuotesAppend(a[1..], b);
      var h := if a[0] == '"' then "" else [a[0]];
      assert DropQuotes(a + b) == h + DropQuotes(a[1..] + b);
      assert DropQuotes(a) == h + DropQuotes(a[1..]);
    } else {
      assert a + b == b;
    }
  }

  lemma {:induction false} Utf16Append(a: string, b: string)
    ensures Utf16Length(a + b) == Utf16Length(a) + Utf16Length(b)
    decreases |a|
  {
    if |a| > 0 {
      assert (a + b)[0] == a[0] && (a + b)[1..] == a[1..] + b;
      Utf16Append(a[1..], b);
    } else {
      assert a + b == b;
    }
  }

  lemma {:induction false} VisibleUnits(segs: seq<Segment>)
    requires forall i :: 0 <= i < |segs| ==> ValidSegment(segs[i])
    ensures Utf16Length(DropQuotes(Visible(segs))) == VisibleLength(segs)
    decreases |segs|
  {
    if |segs| > 0 {
      VisibleUnits(segs[1..]);
      var head := if segs[0].Plain? then Escape(segs[0].text) else "";
      DropQuotesAppend(head, Visible(segs[1..]));
      Utf16Append(DropQuotes(head), DropQuotes(Visible(segs[1..])));
      if segs[0].Plain? {
        EscapedText(segs[0].text);
      }
    }
  }

  /** A cell of plain characters measures its own length. */
  lemma PlainCellLength(cell: string)
    requires forall i :: 0 <= i < |cell| ==> IsPlainChar(cell[i])
    ensures CellLength(cell) == Utf16Length(cell)
  {
    var t := Stringify(cell);
    PrefixShapes();
    PlainUnmatched(cell, X1bPrefix);
    PlainUnmatched(cell, U001bPrefix);
    assert DropQuotes(t) == DropQuotes(Escape(cell)) by {
      QuotesDropped(Escape(cell));
    }
    assert Utf16Length(DropQuotes(Escape(cell))) == Utf16Length(cell) by {
      EscapedText(cell);
    }
  }

  /** Both colour-code patterns start with a backslash and a letter. */
  lemma PrefixShapes()
    ensures |X1bPrefix| >= 2 && X1bPrefix[0] == '\\' && X1bPrefix[1] == 'x'
    ensures |U001bPrefix| >= 2 && U001bPrefix[0] == '\\' && U001bPrefix[1] == 'u'
  {
  }

  /** Neither colour-code pattern matches anywhere in the written form of plain text. */
  lemma PlainUnmatched(cell: string, prefix: string)
    requires forall i :: 0 <= i < |cell| ==> IsPlainChar(cell[i])
    requires |prefix| >= 2 && prefix[0] == '\\' && (prefix[1] == 'x' || prefix[1] == 'u')
    ensures ReplaceCodes(Stringify(cell), prefix) == Stringify(cell)
  {
    EscapedText(cell);
    QuotedUnmatched(Escape(cell), prefix);
  }



  // ---------------------------------------------------------------------
  // Column width
  // ---------------------------------------------------------------------

  /**
   * The running maximum of the measured cells of one column, started at
   * `minWidth`: the widest cell, or `minWidth` when no cell is wider.
   */
  function ContentWidth(tableData: Report, columnIndex: int, minWidth: int): (r: int)
    ensures r >= minWidth
    ensures forall i :: 0 <= i < |tableData| ==> CellLength(CellAt(tableData[i], columnIndex)) <= r
    ensures r == minWidth || exists i :: 0 <= i < |tableData| && r == CellLength(CellAt(tableData[i], columnIndex))
  {
    if |tableData| == 0 then minWidth
    else
      var prior := tableData[..|tableData| - 1];
      var max := ContentWidth(prior, columnIndex, minWidth);
      var len := CellLength(CellAt(tableData[|tableData| - 1], columnIndex));
      assert forall i :: 0 <= i < |prior| ==> prior[i] == tableData[i];
      if len > max then len else max
  }

  /**
   * `getColumnWidth`: the widest measured cell of the column, at least
   * `minWidth` and at most `maxWidth` (the cap wins when the two clash).
   */
  function ColumnWidth(tableData: Report, columnIndex: int, maxWidth: int := 50, minWidth: int := 15): (r: int)
    ensures r <= maxWidth
    ensures r >= Min(minWidth, maxWidth)
    ensures |tableData| == 0 ==> r == Min(minWidth, maxWidth)
    ensures forall i :: 0 <= i < |tableData| ==> CellLength(CellAt(tableData[i], columnIndex)) <= r || r == maxWidth
    ensures r == maxWidth || r == minWidth
            || exists i :: 0 <= i < |tableData| && r == CellLength(CellAt(tableData[i], columnIndex))
    ensures r == maxWidth ==>
              (minWidth >= maxWidth || exists i :: 0 <= i < |tableData| && CellLength(CellAt(tableData[i], columnIndex)) >= maxWidth)
  {
    Min(ContentWidth(tableData, columnIndex, minWidth), maxWidth)
  }

  // ---------------------------------------------------------------------
  // Header row
  // ---------------------------------------------------------------------

  predicate IncreasingColumns(hs: seq<SecurityReportHeader>)
  {
    forall i, j :: 0 <= i < j < |hs| ==> hs[i].Index() < hs[j].Index()
  }

  /** `hs.filter((h) => columnsToInclude.includes(h))`. */
  function FilterHeaders(hs: seq<SecurityReportHeader>, columnsToInclude: seq<string>): seq<SecurityReportHeader>
  {
    if |hs| == 0 then []
    else if hs[0].Name() in columnsToInclude then [hs[0]] + FilterHeaders(hs[1..], columnsToInclude)
    else FilterHeaders(hs[1..], columnsToInclude)
  }

  /** The filter keeps exactly the requested headers, and keeps canonical order. */
  lemma {:induction false} FilterHeadersKeeps(hs: seq<SecurityReportHeader>, columnsToInclude: seq<string>)
    ensures forall h :: h in FilterHeaders(hs, columnsToInclude) <==> h in hs && h.Name() in columnsToInclude
    ensures IncreasingColumns(hs) ==> IncreasingColumns(FilterHeaders(hs, columnsToInclude))
    decreases |hs|
  {
    if |hs| > 0 {
      FilterHeadersKeeps(hs[1..], columnsToInclude);
      var rest := FilterHeaders(hs[1..], columnsToInclude);
      assert forall h :: h in hs <==> h == hs[0] || h in hs[1..];
      if IncreasingColumns(hs) {
        assert forall h :: h in hs[1..] ==> hs[0].Index() < h.Index();
        assert IncreasingColumns(hs[1..]);
      }
    }
  }

  /**
   * The header row of the security table: every column when no subset is
   * requested, otherwise exactly the canonical columns whose name is
   * requested, in canonical order and once each; unknown names are ignored.
   */
  function ReportHeaders(columnsToInclude: seq<string>): (r: seq<SecurityReportHeader>)
    ensures |columnsToInclude| == 0 ==> r == SecurityReportHeaders
    ensures |columnsToInclude| > 0 ==> forall h :: h in r <==> h.Name() in columnsToInclude
    ensures forall i, j :: 0 <= i < j < |r| ==> r[i].Index() < r[j].Index()
  {
    assert IncreasingColumns(SecurityReportHeaders);
    FilterHeadersKeeps(SecurityReportHeaders, columnsToInclude);
    if |columnsToInclude| > 0 then FilterHeaders(SecurityReportHeaders, columnsToInclude)
    else SecurityReportHeaders
  }

  /** A request is answered in canonical order, not in request order. */
  lemma RequestOrderIgnored(cols: seq<string>)
    requires cols == ["Severity", "ID"]
    ensures ReportHeaders(cols) == [IdHeader, SeverityHeader]
  {
    var hs := SecurityReportHeaders;
    assert "ID" in cols && "Severity" in cols;
    assert "Module" !in cols && "Title" !in cols && "Paths" !in cols && "URL" !in cols && "Ex." !in cols;
    assert FilterHeaders(hs[7..], cols) == [];
    assert FilterHeaders(hs[6..], cols) == [];
    assert FilterHeaders(hs[5..], cols) == [];
    assert FilterHeaders(hs[4..], cols) == [SeverityHeader];
    assert FilterHeaders(hs[3..], cols) == [SeverityHeader];
    assert FilterHeaders(hs[2..], cols) == [SeverityHeader];
    assert FilterHeaders(hs[1..], cols) == [SeverityHeader];
    assert FilterHeaders(hs, cols) == [IdHeader, SeverityHeader];
  }

  // ---------------------------------------------------------------------
  // Row tuples to row objects
  // ---------------------------------------------------------------------

  /** `elementKeyNames[i]` as a property name; past the end JavaScript uses the name "undefined". */
  function KeyAt(keyNames: seq<string>, i: nat): string
  {
    if i < |keyNames| then keyNames[i] else "undefined"
  }

  /** The object a row tuple becomes: each cell stored under its column's key, left to right. */
  function RowRecord(row: seq<string>, keyNames: seq<string>): RowObject
  {
    if |row| == 0 then map[]
    else RowRecord(row[..|row| - 1], keyNames)[KeyAt(keyNames, |row| - 1) := row[|row| - 1]]
  }

  /** The row object's properties are exactly the keys of the row's positions. */
  lemma {:induction false} RowRecordKeys(row: seq<string>, keyNames: seq<string>)
    ensures RowRecord(row, keyNames).Keys == set i | 0 <= i < |row| :: KeyAt(keyNames, i)
    decreases |row|
  {
    if |row| > 0 {
      var prior := row[..|row| - 1];
      RowRecordKeys(prior, keyNames);
      assert (set i | 0 <= i < |row| :: KeyAt(keyNames, i))
          == (set i | 0 <= i < |prior| :: KeyAt(keyNames, i)) + {KeyAt(keyNames, |row| - 1)};
    }
  }

  /** A cell whose key no later cell reuses is the value stored under that key. */
  lemma {:induction false} RowRecordAt(row: seq<string>, keyNames: seq<string>, i: nat)
    requires i < |row|
    requires forall j :: i < j < |row| ==> KeyAt(keyNames, j) != KeyAt(keyNames, i)
    ensures KeyAt(keyNames, i) in RowRecord(row, keyNames)
    ensures RowRecord(row, keyNames)[KeyAt(keyNames, i)] == row[i]
    decreases |row|
  {
    if i < |row| - 1 {
      var prior := row[..|row| - 1];
      RowRecordAt(prior, keyNames, i);
    }
  }

  /** With distinct key names and no surplus cells, key `keyNames[i]` holds cell `i`. */
  lemma DistinctKeysRecord(row: seq<string>, keyNames: seq<string>)
    requires |row| <= |keyNames|
    requires forall i, j :: 0 <= i < j < |keyNames| ==> keyNames[i] != keyNames[j]
    ensures RowRecord(row, keyNames).Keys == set i | 0 <= i < |row| :: keyNames[i]
    ensures forall i :: 0 <= i < |row| ==> RowRecord(row, keyNames)[keyNames[i]] == row[i]
  {
    RowRecordKeys(row, keyNames);
    assert (set i | 0 <= i < |row| :: KeyAt(keyNames, i)) == set i | 0 <= i < |row| :: keyNames[i];
    forall i | 0 <= i < |row|
      ensures RowRecord(row, keyNames)[keyNames[i]] == row[i]
    {
      RowRecordAt(row, keyNames, i);
    }
  }

  /** Fills a fresh object with one row's cells, column by column. */
  method ConvertRow(rowTuple: seq<string>, keyNames: seq<string>) returns (rowObj: RowObject)
    ensures rowObj == RowRecord(rowTuple, keyNames)
  {
    rowObj := map[];
    var i := 0;
    while i < |rowTuple|
      invariant 0 <= i <= |rowTuple|
      invariant rowObj == RowRecord(rowTuple[..i], keyNames)
    {
      assert rowTuple[..i + 1][..i] == rowTuple[..i];
      rowObj := rowObj[KeyAt(keyNames, i) := rowTuple[i]];
      i := i + 1;
    }
    assert rowTuple[..|rowTuple|] == rowTuple;
  }

  function RecordsOf(report: Report, keyNames: seq<string>): seq<RowObject>
  {
    seq(|report|, i requires 0 <= i < |report| => RowRecord(report[i], keyNames))
  }

  /** `convertReportTuplesToObjects`: one object per row, in row order. */
  method ConvertReportTuplesToObjects(report: Report, keyNames: seq<string>) returns (records: seq<RowObject>)
    ensures |records| == |report|
    ensures forall i :: 0 <= i < |report| ==> records[i] == RowRecord(report[i], keyNames)
  {
    records := [];
    var i := 0;
    while i < |report|
      invariant 0 <= i <= |report|
      invariant |records| == i
      invariant forall k :: 0 <= k < i ==> records[k] == RowRecord(report[k], keyNames)
    {
      var rowObj := ConvertRow(report[i], keyNames);
      records := records + [rowObj];
      i := i + 1;
    }
  }

  // ---------------------------------------------------------------------
  // The machine-readable document
  // ---------------------------------------------------------------------

  /** The document `printJsonOutput` prints. */
  function JsonOutputOf(result: ProcessedResult, exceptionsReport: Report): JsonOutput
  {
    JsonOutput(
      result.failed.GetOr(false),
      NonEmpty(result.unhandledIds),
      RecordsOf(result.report, SecurityReportKeys),
      RecordsOf(exceptionsReport, ExceptionReportKeys),
      NonEmpty(result.unusedExceptionIds))
  }

  /**
   * The document fails only when the result says it failed; its ID lists
   * are the result's lists with the empty IDs removed and order kept; it has
   * one object per report row, holding the row's cells under the column
   * keys; the unused exception modules are not part of it.
   */
  lemma JsonOutputFields(result: ProcessedResult, exceptionsReport: Report)
    ensures JsonOutputOf(result, exceptionsReport).failed == (result.failed == Some(true))
    ensures "" !in JsonOutputOf(result, exceptionsReport).unhandledVulnerabilityIds
    ensures IsSubsequence(JsonOutputOf(result, exceptionsReport).unhandledVulnerabilityIds, result.unhandledIds)
    ensures multiset(JsonOutputOf(result, exceptionsReport).unhandledVulnerabilityIds)
         == multiset(result.unhandledIds)["" := 0]
    ensures "" !in JsonOutputOf(result, exceptionsReport).unusedExceptionIds
    ensures IsSubsequence(JsonOutputOf(result, exceptionsReport).unusedExceptionIds, result.unusedExceptionIds)
    ensures multiset(JsonOutputOf(result, exceptionsReport).unusedExceptionIds)
         == multiset(result.unusedExceptionIds)["" := 0]
    ensures |JsonOutputOf(result, exceptionsReport).vulnerabilitiesReport| == |result.report|
    ensures |JsonOutputOf(result, exceptionsReport).exceptionsReport| == |exceptionsReport|
  {
    NonEmptyFilters(result.unhandledIds);
    NonEmptyFilters(result.unusedExceptionIds);
  }

  /** Every cell of a security row of at most seven cells lands under its column's key. */
  lemma {:induction false} JsonVulnerabilityRecord(result: ProcessedResult, exceptionsReport: Report, i: nat, j: nat)
    requires i < |result.report| && j < |result.report[i]| && |result.report[i]| <= 7
    ensures SecurityReportKeys[j] in JsonOutputOf(result, exceptionsReport).vulnerabilitiesReport[i]
    ensures JsonOutputOf(result, exceptionsReport).vulnerabilitiesReport[i][SecurityReportKeys[j]] == result.report[i][j]
  {
    assert SecurityReportKeys == ["id", "module", "title", "paths", "severity", "url", "isExcepted"];
    DistinctKeysRecord(result.report[i], SecurityReportKeys);
  }

  /** Every cell of an exception row of at most four cells lands under its column's key. */
  lemma {:induction false} JsonExceptionRecord(result: ProcessedResult, exceptionsReport: Report, i: nat, j: nat)
    requires i < |exceptionsReport| && j < |exceptionsReport[i]| && |exceptionsReport[i]| <= 4
    ensures ExceptionReportKeys[j] in JsonOutputOf(result, exceptionsReport).exceptionsReport[i]
    ensures JsonOutputOf(result, exceptionsReport).exceptionsReport[i][ExceptionReportKeys[j]] == exceptionsReport[i][j]
  {
    assert ExceptionReportKeys == ["id", "status", "expiry", "notes"];
    DistinctKeysRecord(exceptionsReport[i], ExceptionReportKeys);
  }

  // ---------------------------------------------------------------------
  // Printing
  // ---------------------------------------------------------------------

  /** `printSecurityReport`: the header row for the request, the rows as given, Title and Paths widths by the width rule. */
  method PrintSecurityReport(p: Process, data: Report, columnsToInclude: seq<string>)
    requires p.exitCode == None
    modifies p
    ensures p.outputs == old(p.outputs) + [SecurityTable(ReportHeaders(columnsToInclude), data, ColumnWidth(data, 2), ColumnWidth(data, 3))]
    ensures p.exitCode == None
  {
    var headers := ReportHeaders(columnsToInclude);
    p.Emit(SecurityTable(headers, data, ColumnWidth(data, 2), ColumnWidth(data, 3)));
  }

  /** `printJsonOutput`: assembles the document and prints it. */
  method PrintJsonOutput(p: Process, result: ProcessedResult, exceptionsReport: Report)
    requires p.exitCode == None
    modifies p
    ensures p.outputs == old(p.outputs) + [JsonDocument(JsonOutputOf(result, exceptionsReport))]
    ensures p.exitCode == None
  {
    var vulnerabilities := ConvertReportTuplesToObjects(result.report, SecurityReportKeys);
    var exceptions := ConvertReportTuplesToObjects(exceptionsReport, ExceptionReportKeys);
    var jsonOutput := JsonOutput(
      result.failed.GetOr(false),
      NonEmpty(result.unhandledIds),
      vulnerabilities,
      exceptions,
      NonEmpty(result.unusedExceptionIds));
    assert vulnerabilities == RecordsOf(result.report, SecurityReportKeys);
    assert exceptions == RecordsOf(exceptionsReport, ExceptionReportKeys);
    p.Emit(JsonDocument(jsonOutput));
  }
}
