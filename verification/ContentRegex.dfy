/**
 The compiler from Suricata `content` strings to escaped regular expressions
 (data/rule_lib.py), the meaning of its input, the meaning of its output, and the
 exact set of contents on which the two meanings agree.
 */
module ContentRegex {
  import opened Text

  /** The characters that the compiler protects with a backslash. */
  const SPECIAL := ",.^$*+?{}[]\\|()/"

  predicate IsSpecial(c: char) {
    c in SPECIAL
  }

  function EscapeChar(c: char): string {
    if IsSpecial(c) then ['\\', c] else [c]
  }

  /** One pass over literal text. */
  function EscapeText(part: string): string {
    if part == "" then "" else EscapeChar(part[0]) + EscapeText(part[1..])
  }

  /** The slices of width two of a hex block, each behind a `\x`; an odd last digit stands alone. */
  function HexPairs(part: string): string {
    if part == "" then ""
    else if |part| == 1 then "\\x" + part
    else "\\x" + part[..2] + HexPairs(part[2..])
  }

  /** The specification of the compiler: one pass over the content that carries the hex-block
      flag and whether a first hex digit has just been written. */
  function CompileFrom(s: string, inHex: bool, odd: bool): string {
    if s == "" then ""
    else if s[0] == '|' then CompileFrom(s[1..], !inHex, false)
    else if !inHex then EscapeChar(s[0]) + CompileFrom(s[1..], false, false)
    else if s[0] == ' ' then CompileFrom(s[1..], true, odd)
    else (if odd then [s[0]] else "\\x" + [s[0]]) + CompileFrom(s[1..], true, !odd)
  }

  function Compile(content: string): string {
    CompileFrom(content, false, false)
  }

  // ----- the imperative compiler computes `Compile` -----

  lemma HexPairsAt(part: string, i: nat, hex: string)
    requires i < |part|
    ensures var j := if i + 2 < |part| then i + 2 else |part|;
            hex + HexPairs(part[i..]) == (hex + "\\x" + part[i..j]) + HexPairs(part[j..])
  {
    if i + 2 <= |part| {
      assert part[i..][..2] == part[i..i + 2] && part[i..][2..] == part[i + 2..];
    } else {
      assert part[i..] == part[i..|part|] && part[|part|..] == "";
    }
  }

  /** The generator expression over the slices of a hex block. */
  method CompileHexBlock(part: string) returns (hex: string)
    ensures hex == HexPairs(part)
  {
    hex := "";
    var i := 0;
    assert part[0..] == part;
    while i < |part|
      invariant 0 <= i
      invariant HexPairs(part) == hex + HexPairs(part[if i < |part| then i else |part|..])
    {
      hide HexPairs;
      HexPairsAt(part, i, hex);
      var j := if i + 2 < |part| then i + 2 else |part|;
      hex := hex + "\\x" + part[i..j];
      i := i + 2;
    }
  }

  lemma EscapeTextAt(part: string, i: nat, pieces: seq<string>)
    requires i < |part|
    ensures Concat(pieces) + EscapeText(part[i..]) == Concat(pieces + [EscapeChar(part[i])]) + EscapeText(part[i + 1..])
  {
    assert part[i..][0] == part[i] && part[i..][1..] == part[i + 1..];
    ConcatSnoc(pieces, EscapeChar(part[i]));
  }

  /** The loop over the characters of a literal part. */
  method CompileText(part: string) returns (pieces: seq<string>)
    ensures Concat(pieces) == EscapeText(part)
  {
    pieces := [];
    assert part[0..] == part;
    for i := 0 to |part|
      invariant Concat(pieces) + EscapeText(part[i..]) == EscapeText(part)
    {
      hide Concat, EscapeText, EscapeChar;
      EscapeTextAt(part, i, pieces);
      pieces := pieces + [EscapeChar(part[i])];
    }
  }

  /** `suricata_content_to_regex`: split at '|', toggle the hex-block flag after every part. */
  method SuricataContentToRegex(content: string) returns (regex: string)
    ensures regex == Compile(content)
  {
    var parts := Split(content, '|');
    var regexParts: seq<string> := [];
    var inHexBlock := false;
    JoinSplit(content, '|');
    assert parts[0..] == parts;
    for k := 0 to |parts|
      invariant Compile(content) == Concat(regexParts) + CompileParts(parts[k..], inHexBlock)
    {
      hide Concat, CompileParts, CompileFrom, Join, Split, Remove, EscapeText, HexPairs;
      assert parts[k..][1..] == parts[k + 1..];
      CompilePartsHead(parts[k..], inHexBlock, Concat(regexParts));
      var pieces;
      if inHexBlock {
        var hex := CompileHexBlock(Remove(parts[k], ' '));
        pieces := [hex];
        ConcatOne(hex);
      } else {
        pieces := CompileText(parts[k]);
      }
      ConcatAppend(regexParts, pieces);
      regexParts := regexParts + pieces;
      inHexBlock := !inHexBlock;
    }
    regex := Concat(regexParts);
  }

  /** What is still to be written when `parts` remain. */
  ghost function CompileParts(parts: seq<string>, inHex: bool): string {
    if parts == [] then "" else CompileFrom(Join(parts, '|'), inHex, false)
  }

  function CompilePart(part: string, inHex: bool): string {
    if inHex then HexPairs(Remove(part, ' ')) else EscapeText(part)
  }

  lemma CompilePartsHead(parts: seq<string>, inHex: bool, before: string)
    requires parts != [] && '|' !in parts[0]
    ensures before + CompileParts(parts, inHex) ==
            (before + CompilePart(parts[0], inHex)) + CompileParts(parts[1..], !inHex)
  {
    var rest := if |parts| == 1 then "" else "|" + Join(parts[1..], '|');
    assert Join(parts, '|') == parts[0] + rest;
    assert CompileFrom(rest, inHex, false) == CompileParts(parts[1..], !inHex) by {
      if |parts| > 1 {
        assert rest[1..] == Join(parts[1..], '|');
      }
    }
    if inHex {
      HexPart(parts[0], rest, false);
    } else {
      TextPart(parts[0], rest);
    }
  }

  lemma {:induction false} TextPart(part: string, rest: string)
    requires '|' !in part
    ensures CompileFrom(part + rest, false, false) == EscapeText(part) + CompileFrom(rest, false, false)
  {
    if part == "" {
      assert part + rest == rest;
    } else {
      assert (part + rest)[1..] == part[1..] + rest;
      TextPart(part[1..], rest);
    }
  }

  /** What is left to write of a hex block whose first digit may already be out. */
  function HexTail(part: string, odd: bool): string {
    if odd && part != "" then [part[0]] + HexPairs(part[1..]) else HexPairs(part)
  }

  lemma HexTailStep(c: char, left: string, odd: bool)
    ensures HexTail([c] + left, odd) == (if odd then [c] else "\\x" + [c]) + HexTail(left, !odd)
  {
    assert ([c] + left)[1..] == left;
    if !odd && left != "" {
      assert ([c] + left)[..2] == [c] + [left[0]];
      assert ([c] + left)[2..] == left[1..];
    }
  }

  lemma {:induction false} HexPart(part: string, rest: string, odd: bool)
    requires '|' !in part
    requires rest != "" ==> rest[0] == '|'
    ensures CompileFrom(part + rest, true, odd) == HexTail(Remove(part, ' '), odd) + CompileFrom(rest, true, false)
  {
    if part == "" {
      assert part + rest == rest;
    } else {
      assert (part + rest)[1..] == part[1..] + rest;
      var left := Remove(part[1..], ' ');
      if part[0] == ' ' {
        assert Remove(part, ' ') == left;
        HexPart(part[1..], rest, odd);
      } else {
        HexPart(part[1..], rest, !odd);
        HexTailStep(part[0], left, odd);
      }
    }
  }

  // ----- which contents are their own expression -----

  lemma {:induction false} NoBarIsWritten(s: string, inHex: bool, odd: bool)
    ensures '|' !in CompileFrom(s, inHex, odd)
    decreases |s|
  {
    if s != "" {
      if s[0] == '|' {
        NoBarIsWritten(s[1..], !inHex, false);
      } else if inHex && s[0] == ' ' {
        NoBarIsWritten(s[1..], true, odd);
      } else {
        NoBarIsWritten(s[1..], inHex, inHex && !odd);
      }
    }
  }

  lemma {:induction false} EscapingLengthens(s: string)
    ensures |EscapeText(s)| >= |s|
    ensures |EscapeText(s)| == |s| <==> forall k :: 0 <= k < |s| ==> !IsSpecial(s[k])
    ensures |EscapeText(s)| == |s| ==> EscapeText(s) == s
  {
    if s != "" {
      EscapingLengthens(s[1..]);
      assert forall k :: 0 < k < |s| ==> s[k] == s[1..][k - 1];
      assert forall k :: 0 <= k < |s| - 1 ==> s[1..][k] == s[k + 1];
    }
  }

  /** A content is its own expression exactly when it has none of these characters. */
  lemma CompileIsIdentity(content: string)
    ensures Compile(content) == content
            <==> forall k :: 0 <= k < |content| ==> content[k] !in ",.^$*+?{}[]\\|()/"
  {
    assert forall c: char :: IsSpecial(c) <==> c in ",.^$*+?{}[]\\|()/";
    NoBarIsWritten(content, false, false);
    assert CompileFrom("", false, false) == "";
    hide CompileFrom, EscapeText, IsSpecial;
    EscapingLengthens(content);
    if '|' in content {
      assert IsSpecial('|') by {
        assert SPECIAL[12] == '|';
      }
    } else {
      TextPart(content, "");
      assert content + "" == content;
    }
  }

  // ----- what a content denotes -----

  function HexVal(c: char): Option<int> {
    if '0' <= c <= '9' then Some(c as int - '0' as int)
    else if 'a' <= c <= 'f' then Some(c as int - 'a' as int + 10)
    else if 'A' <= c <= 'F' then Some(c as int - 'A' as int + 10)
    else None
  }

  /** A hexadecimal digit in either case stands for its place in the list of digits. */
  lemma HexValIs(c: char, v: int)
    ensures HexVal(c) == Some(v)
            <==> 0 <= v < 16 && (c == "0123456789abcdef"[v] || c == "0123456789ABCDEF"[v])
  {
    var lower, upper := "0123456789abcdef", "0123456789ABCDEF";
    assert forall k :: 0 <= k < 10 ==> lower[k] == upper[k] == k as char + '0';
    assert forall k :: 10 <= k < 16 ==> lower[k] == (k - 10) as char + 'a' && upper[k] == (k - 10) as char + 'A';
  }

  function Prepend(b: int, tail: Option<seq<int>>): Option<seq<int>> {
    if tail.Some? then Some([b] + tail.value) else None
  }

  /** The characters that Suricata lets a content escape with a backslash. */
  const ESCAPABLE := "\"\\:;"

  /** The bytes of a content, or None when it is malformed: an unclosed hex block, a lone or
      non-hexadecimal digit in one, or a backslash before a character that needs none.
      `escapes` says whether a backslash in literal text quotes the next character. */
  function Bytes(s: string, inHex: bool, pending: Option<char>, escapes: bool): Option<seq<int>> {
    if s == "" then
      if inHex then None else Some([])
    else if s[0] == '|' then
      if pending.Some? then None else Bytes(s[1..], !inHex, None, escapes)
    else if inHex then
      if s[0] == ' ' then Bytes(s[1..], true, pending, escapes)
      else if HexVal(s[0]).None? then None
      else if pending.None? then Bytes(s[1..], true, Some(s[0]), escapes)
      else if HexVal(pending.value).None? then None
      else Prepend(HexVal(pending.value).value * 16 + HexVal(s[0]).value, Bytes(s[1..], true, None, escapes))
    else if escapes && s[0] == '\\' then
      if |s| >= 2 && s[1] in ESCAPABLE then Prepend(s[1] as int, Bytes(s[2..], false, None, escapes)) else None
    else Prepend(s[0] as int, Bytes(s[1..], false, None, escapes))
  }

  function Denote(content: string): Option<seq<int>> {
    Bytes(content, false, None, true)
  }

  // ----- what a regular expression matches -----

  datatype Atom = End | Lit(code: int, rest: string) | NotLiteral

  predicate IsAlnum(c: char) {
    '0' <= c <= '9' || 'a' <= c <= 'z' || 'A' <= c <= 'Z'
  }

  predicate IsOperator(c: char) {
    || c == '^' || c == '$' || c == '.' || c == '[' || c == ']' || c == '|' || c == '(' || c == ')'
    || c == '?' || c == '*' || c == '+' || c == '{' || c == '}' || c == '/' || c == ','
  }

  /** The first atom of a regular expression of the PCRE family, as far as it stands for one fixed
      code: `\xHH`, a backslash before a non-alphanumeric character, or a character that is neither
      an operator, nor the delimiter '/', nor the separator ',' of the rule file. */
  function NextAtom(r: string): Atom {
    if r == "" then End
    else if r[0] == '\\' then
      if |r| >= 4 && r[1] == 'x' && HexVal(r[2]).Some? && HexVal(r[3]).Some? then
        Lit(HexVal(r[2]).value * 16 + HexVal(r[3]).value, r[4..])
      else if |r| >= 2 && !IsAlnum(r[1]) then Lit(r[1] as int, r[2..])
      else NotLiteral
    else if IsOperator(r[0]) then NotLiteral
    else Lit(r[0] as int, r[1..])
  }

  /** A text is matched when the atoms, read left to right, spell it; an expression with anything
      but literal atoms is outside this fragment and matches nothing here. */
  predicate Matches(r: string, text: seq<int>)
    decreases |r|
  {
    match NextAtom(r)
    case End => text == []
    case NotLiteral => false
    case Lit(code, rest) => text != [] && text[0] == code && Matches(rest, text[1..])
  }

  /** The language of `r` is the single byte string `bytes`. */
  ghost predicate MatchesOnly(r: string, bytes: seq<int>) {
    forall text: seq<int> :: Matches(r, text) <==> text == bytes
  }

  // ----- meaning preservation -----

  lemma TextAtom(c: char, tail: string)
    ensures NextAtom(EscapeChar(c) + tail) == Lit(c as int, tail)
  {
    assert IsSpecial(c) <==> c == '\\' || IsOperator(c);
    var r := EscapeChar(c) + tail;
    assert r[|EscapeChar(c)|..] == tail;
  }

  lemma HexAtom(hi: char, lo: char, tail: string)
    requires HexVal(hi).Some? && HexVal(lo).Some?
    ensures NextAtom("\\x" + [hi, lo] + tail) == Lit(HexVal(hi).value * 16 + HexVal(lo).value, tail)
  {
    var r := "\\x" + [hi, lo] + tail;
    assert r[4..] == tail;
  }

  /** The regular-expression text of what is left of a content. */
  ghost function Pending(s: string, inHex: bool, pending: Option<char>): string {
    if pending.Some? then "\\x" + [pending.value] + CompileFrom(s, true, true) else CompileFrom(s, inHex, false)
  }

  /** The compiled expression matches exactly the content's bytes read without escapes. */
  lemma {:induction false} CompileMatchesRaw(s: string, inHex: bool, pending: Option<char>, text: seq<int>)
    requires pending.Some? ==> inHex && HexVal(pending.value).Some?
    requires Bytes(s, inHex, pending, false).Some?
    ensures Matches(Pending(s, inHex, pending), text) <==> text == Bytes(s, inHex, pending, false).value
    decreases |s|
  {
    if s == "" {
    } else if s[0] == '|' {
      CompileMatchesRaw(s[1..], !inHex, None, text);
    } else if inHex && s[0] == ' ' {
      CompileMatchesRaw(s[1..], true, pending, text);
    } else if inHex && pending.None? {
      CompileMatchesRaw(s[1..], true, Some(s[0]), text);
      assert Pending(s[1..], true, Some(s[0])) == Pending(s, true, None);
    } else {
      PendingAtom(s, inHex, pending);
      var code := NextAtom(Pending(s, inHex, pending)).code;
      var tail := Bytes(s[1..], inHex, None, false);
      assert Bytes(s, inHex, pending, false) == Prepend(code, tail);
      if text != [] {
        CompileMatchesRaw(s[1..], inHex, None, text[1..]);
        assert text == [text[0]] + text[1..];
        assert ([code] + tail.value)[1..] == tail.value;
      }
    }
  }

  lemma PendingAtom(s: string, inHex: bool, pending: Option<char>)
    requires s != "" && s[0] != '|'
    requires inHex ==> pending.Some? && HexVal(pending.value).Some? && HexVal(s[0]).Some?
    requires !inHex ==> pending.None?
    ensures NextAtom(Pending(s, inHex, pending)) ==
            Lit(if inHex then HexVal(pending.value).value * 16 + HexVal(s[0]).value else s[0] as int,
                Pending(s[1..], inHex, None))
  {
    if inHex {
      var tail := CompileFrom(s[1..], true, false);
      HexAtom(pending.value, s[0], tail);
      assert Pending(s, true, pending) == "\\x" + [pending.value, s[0]] + tail;
    } else {
      TextAtom(s[0], CompileFrom(s[1..], false, false));
    }
  }

  /** Every backslash of a well-formed content is an escape, and the reading without escapes is
      longer by at least the first one. */
  lemma {:induction false} RawVersusDenoted(s: string, inHex: bool, pending: Option<char>)
    requires pending.Some? ==> inHex
    requires Bytes(s, inHex, pending, true).Some?
    ensures Bytes(s, inHex, pending, false).Some?
    ensures |Bytes(s, inHex, pending, false).value| >= |Bytes(s, inHex, pending, true).value|
    ensures Bytes(s, inHex, pending, false).value == Bytes(s, inHex, pending, true).value <==> '\\' !in s
    ensures '\\' in s ==> |Bytes(s, inHex, pending, false).value| > |Bytes(s, inHex, pending, true).value|
    decreases |s|
  {
    if s == "" {
    } else if s[0] == '|' {
      RawVersusDenoted(s[1..], !inHex, None);
    } else if inHex {
      if s[0] == ' ' {
        RawVersusDenoted(s[1..], true, pending);
      } else if pending.None? {
        RawVersusDenoted(s[1..], true, Some(s[0]));
      } else {
        RawVersusDenoted(s[1..], true, None);
      }
    } else if s[0] == '\\' {
      RawVersusDenoted(s[2..], false, None);
      assert s[1..][1..] == s[2..];
    } else {
      RawVersusDenoted(s[1..], false, None);
    }
  }

  /** The compiled expression's language is exactly the single byte string that a well-formed
      content denotes, if and only if the content uses no backslash escape. */
  lemma CompilePreservesMeaning(content: string)
    requires Denote(content).Some?
    ensures MatchesOnly(Compile(content), Denote(content).value) <==> '\\' !in content
  {
    RawVersusDenoted(content, false, None);
    var raw, denoted := Bytes(content, false, None, false).value, Denote(content).value;
    assert MatchesOnly(Compile(content), raw) by {
      forall text: seq<int>
        ensures Matches(Compile(content), text) <==> text == raw
      {
        CompileMatchesRaw(content, false, None, text);
      }
    }
    OnlyOneText(Compile(content), raw, denoted);
  }

  lemma OnlyOneText(r: string, a: seq<int>, b: seq<int>)
    requires MatchesOnly(r, a)
    ensures MatchesOnly(r, b) <==> a == b
  {
    assert Matches(r, a);
  }

  /** An escaped quote is a content on which the meaning is lost: two bytes are matched, one is denoted. */
  lemma EscapeLosesMeaning()
    ensures Denote("\\\"") == Some(['"' as int])
    ensures Matches(Compile("\\\""), ['\\' as int, '"' as int])
    ensures !Matches(Compile("\\\""), ['"' as int])
  {
    var c := "\\\"";
    assert c[2..] == "" && c[1..] == "\"" && c[1..][1..] == "";
    assert Bytes("", false, None, true) == Some([]);
    assert Denote(c) == Prepend('"' as int, Bytes("", false, None, true));
    RawVersusDenoted(c, false, None);
    assert Bytes("\"", false, None, false) == Prepend('"' as int, Bytes("", false, None, false));
    assert Bytes(c, false, None, false) == Prepend('\\' as int, Bytes("\"", false, None, false));
    assert Bytes("", false, None, false) == Some([]);
    assert Bytes("\"", false, None, false).value == ['"' as int];
    CompileMatchesRaw(c, false, None, ['\\' as int, '"' as int]);
    CompileMatchesRaw(c, false, None, ['"' as int]);
  }
}
