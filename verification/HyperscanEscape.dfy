/**
 The second escaping pass of the rule pipeline: `to_hyperscan` of data/rule_sampler.py protects
 ^ { } $ inside character classes. The pass is idempotent on every pattern and leaves every
 expression compiled from a well-formed content unchanged.
 */
module HyperscanEscape {
  import opened Text
  import ContentRegex

  const CLASS_SPECIALS := "^{}$"

  predicate Fragile(c: char) {
    c == '^' || c == '{' || c == '}' || c == '$'
  }

  /** One `re.sub` with a negative look-behind: a backslash goes in front of every `c` that does
      not already follow one. `prev` is the character before `s`. */
  function EscapeOne(prev: char, s: string, c: char): string
    decreases |s|
  {
    if s == "" then ""
    else (if s[0] == c && prev != '\\' then ['\\', s[0]] else [s[0]]) + EscapeOne(s[0], s[1..], c)
  }

  /** The same for a whole set of characters at once. */
  function EscapeSet(prev: char, s: string, cs: set<char>): string
    decreases |s|
  {
    if s == "" then ""
    else (if s[0] in cs && prev != '\\' then ['\\', s[0]] else [s[0]]) + EscapeSet(s[0], s[1..], cs)
  }

  const START := ' ' // stands for "no character before"

  /** What `escape_chars` makes of one character class. */
  function EscapeClass(group: string): string {
    EscapeSet(START, group, {'^', '{', '}', '$'})
  }

  /** `escape_chars`: four substitutions, each over the result of the one before. */
  method EscapeChars(group: string) returns (content: string)
    ensures content == EscapeClass(group)
  {
    content := group;
    EscapeSetNone(START, group);
    ghost var done: set<char> := {};
    for i := 0 to |CLASS_SPECIALS|
      invariant done == set k | 0 <= k < i :: CLASS_SPECIALS[k]
      invariant content == EscapeSet(START, group, done)
    {
      var c := CLASS_SPECIALS[i];
      EscapeSetThenOne(START, START, group, done, c);
      content := EscapeOne(START, content, c);
      done := done + {c};
    }
    assert done == {'^', '{', '}', '$'} by {
      assert CLASS_SPECIALS[0] in done && CLASS_SPECIALS[1] in done;
      assert CLASS_SPECIALS[2] in done && CLASS_SPECIALS[3] in done;
    }
  }

  lemma {:induction false} EscapeSetNone(prev: char, s: string)
    ensures EscapeSet(prev, s, {}) == s
    decreases |s|
  {
    if s != "" {
      EscapeSetNone(s[0], s[1..]);
    }
  }

  /** A later substitution does not see the backslashes of an earlier one as its own. */
  lemma {:induction false} EscapeSetThenOne(prev: char, prev': char, s: string, cs: set<char>, c: char)
    requires c !in cs && c != '\\' && '\\' !in cs
    requires prev == '\\' <==> prev' == '\\'
    ensures EscapeOne(prev', EscapeSet(prev, s, cs), c) == EscapeSet(prev, s, cs + {c})
    decreases |s|
  {
    if s != "" {
      var rest := EscapeSet(s[0], s[1..], cs);
      EscapeSetThenOne(s[0], s[0], s[1..], cs, c);
      if s[0] in cs && prev != '\\' {
        var t := ['\\', s[0]] + rest;
        assert t[1..] == [s[0]] + rest && t[1..][1..] == rest;
        assert EscapeOne('\\', [s[0]] + rest, c) == [s[0]] + EscapeOne(s[0], rest, c);
      } else {
        assert ([s[0]] + rest)[1..] == rest;
      }
    }
  }

  // ----- the pass over a whole pattern -----

  /** `re.sub` with the pattern of a smallest character class: from a '[' to the first ']' after it. */
  function EscapeClasses(p: string): string {
    var open := IndexOf(p, '[');
    var len := IndexOf(p[open..], ']');
    if open + len == |p| then p
    else p[..open] + EscapeClass(p[open..open + len + 1]) + EscapeClasses(p[open + len + 1..])
  }

  /** The character class that starts at the '[' of a pattern, escaped, is again one class. */
  lemma {:induction false} EscapeSetShape(prev: char, s: string, cs: set<char>)
    requires ']' !in cs && '[' !in cs
    ensures ']' !in s ==> ']' !in EscapeSet(prev, s, cs)
    ensures s != "" && s[0] == '[' ==>
              EscapeSet(prev, s, cs) != "" && EscapeSet(prev, s, cs)[0] == '['
    decreases |s|
  {
    if s != "" {
      EscapeSetShape(s[0], s[1..], cs);
    }
  }

  lemma {:induction false} EscapeSetSnoc(prev: char, s: string, x: char, cs: set<char>)
    requires x !in cs
    ensures EscapeSet(prev, s + [x], cs) == EscapeSet(prev, s, cs) + [x]
    decreases |s|
  {
    if s != "" {
      assert (s + [x])[1..] == s[1..] + [x];
      EscapeSetSnoc(s[0], s[1..], x, cs);
    }
  }

  lemma {:induction false} EscapeSetIdempotent(prev: char, prev': char, s: string, cs: set<char>)
    requires '\\' !in cs
    requires prev == '\\' <==> prev' == '\\'
    ensures EscapeSet(prev', EscapeSet(prev, s, cs), cs) == EscapeSet(prev, s, cs)
    decreases |s|
  {
    if s != "" {
      var rest := EscapeSet(s[0], s[1..], cs);
      EscapeSetIdempotent(s[0], s[0], s[1..], cs);
      if s[0] in cs && prev != '\\' {
        var t := ['\\', s[0]] + rest;
        assert t[1..] == [s[0]] + rest && t[1..][1..] == rest;
      } else {
        assert ([s[0]] + rest)[1..] == rest;
      }
    }
  }

  /** A class found at the front of the rest of a pattern is found again after rebuilding the pattern. */
  lemma EscapeClassesAt(pre: string, body: string, post: string)
    requires '[' !in pre && ']' !in body
    ensures EscapeClasses(pre + (['['] + body + [']']) + post) ==
            pre + EscapeClass(['['] + body + [']']) + EscapeClasses(post)
  {
    var group := ['['] + body + [']'];
    var p := pre + group + post;
    assert p == pre + ['['] + (body + [']'] + post);
    IndexOfUnique(pre, '[', body + [']'] + post);
    assert p[|pre|..] == (['['] + body) + [']'] + post;
    IndexOfUnique(['['] + body, ']', post);
    assert p[|pre|..|pre| + |group|] == group && p[|pre| + |group|..] == post && p[..|pre|] == pre;
  }

  /** Splits a pattern at its first character class, if it has one. */
  lemma FirstClass(p: string) returns (found: bool, pre: string, body: string, post: string)
    ensures !found ==> EscapeClasses(p) == p == pre + post && '[' !in pre && ']' !in post
    ensures found ==> p == pre + (['['] + body + [']']) + post && '[' !in pre && ']' !in body && |post| < |p|
  {
    var open := IndexOf(p, '[');
    var len := IndexOf(p[open..], ']');
    found, pre, body, post := open + len < |p|, p[..open], "", p[open..];
    assert !found ==> EscapeClasses(p) == p;
    hide EscapeClasses;
    if found {
      var rest := p[open..];
      assert rest[len] == ']' && rest[0] == '[' && len > 0;
      body, post := rest[1..len], rest[len + 1..];
      assert rest == ['['] + body + [']'] + post;
      assert p == pre + rest;
    }
  }

  /** Running the class-escaping pass twice is running it once. */
  lemma {:induction false} EscapeClassesIdempotent(p: string)
    ensures EscapeClasses(EscapeClasses(p)) == EscapeClasses(p)
    decreases |p|
  {
    var found, pre, body, post := FirstClass(p);
    if found {
      EscapeClassesIdempotent(post);
      IdempotentAt(p, pre, body, post, EscapeClasses(post));
    }
  }

  lemma IdempotentAt(p: string, pre: string, body: string, post: string, post': string)
    requires '[' !in pre && ']' !in body && p == pre + (['['] + body + [']']) + post
    requires post' == EscapeClasses(post) == EscapeClasses(post')
    ensures EscapeClasses(EscapeClasses(p)) == EscapeClasses(p)
  {
    var body' := EscapedBody(body);
    var q := pre + (['['] + body' + [']']) + post';
    assert EscapeClasses(p) == q by {
      EscapeClassesAt(pre, body, post);
    }
    assert EscapeClasses(q) == q by {
      EscapeClassesAt(pre, body', post');
    }
  }

  lemma EscapedBody(body: string) returns (body': string)
    requires ']' !in body
    ensures ']' !in body' && EscapeClass(['['] + body + [']']) == ['['] + body' + [']']
    ensures EscapeClass(['['] + body' + [']']) == ['['] + body' + [']']
  {
    var cs := {'^', '{', '}', '$'};
    EscapeSetSnoc(START, ['['] + body, ']', cs);
    var g := EscapeSet(START, ['['] + body, cs);
    EscapeSetShape(START, ['['] + body, cs);
    body' := g[1..];
    assert g == ['['] + body';
    EscapeSetIdempotent(START, START, ['['] + body + [']'], cs);
  }

  // ----- guarded characters -----

  /** Every fragile character of `s` follows a backslash; `prev` is the character before `s`. */
  predicate Guarded(prev: char, s: string)
    decreases |s|
  {
    s == "" || ((Fragile(s[0]) ==> prev == '\\') && Guarded(s[0], s[1..]))
  }

  lemma {:induction false} GuardedClass(prev: char, s: string)
    requires Guarded(prev, s)
    ensures EscapeSet(prev, s, {'^', '{', '}', '$'}) == s
    decreases |s|
  {
    if s != "" {
      GuardedClass(s[0], s[1..]);
    }
  }

  /** The hex blocks of a content hold no fragile character. */
  predicate CleanHex(s: string, inHex: bool) {
    s == "" || (if s[0] == '|' then CleanHex(s[1..], !inHex)
                else (inHex ==> !Fragile(s[0])) && CleanHex(s[1..], inHex))
  }

  lemma {:induction false} WellFormedIsCleanHex(s: string, inHex: bool, pending: Option<char>)
    requires pending.Some? ==> inHex
    requires ContentRegex.Bytes(s, inHex, pending, true).Some?
    ensures CleanHex(s, inHex)
    decreases |s|
  {
    if s != "" {
      if s[0] == '|' {
        WellFormedIsCleanHex(s[1..], !inHex, None);
      } else if inHex {
        if s[0] == ' ' {
          WellFormedIsCleanHex(s[1..], true, pending);
        } else if pending.None? {
          WellFormedIsCleanHex(s[1..], true, Some(s[0]));
        } else {
          WellFormedIsCleanHex(s[1..], true, None);
        }
      } else if s[0] == '\\' {
        WellFormedIsCleanHex(s[2..], false, None);
        assert s[1..][1..] == s[2..];
      } else {
        WellFormedIsCleanHex(s[1..], false, None);
      }
    }
  }

  // ----- exactly when the pass changes something -----

  /** Whether a reader of the pattern is inside brackets after the character `c`. */
  predicate Inside(inside: bool, c: char) {
    if inside then c != ']' else c == '['
  }

  /** Some fragile character of `p` does not follow a backslash and lies in a class that is closed. */
  predicate Exposed(p: string, inside: bool, prev: char)
    decreases |p|
  {
    p != "" && ((inside && Fragile(p[0]) && prev != '\\' && ']' in p[1..])
                || Exposed(p[1..], Inside(inside, p[0]), p[0]))
  }

  lemma {:induction false} NoClose(p: string, inside: bool, prev: char)
    requires ']' !in p
    ensures !Exposed(p, inside, prev)
    decreases |p|
  {
    if p != "" {
      NoClose(p[1..], Inside(inside, p[0]), p[0]);
    }
  }

  /** What comes before the first bracket exposes nothing. */
  lemma {:induction false} BeforeClass(pre: string, rest: string, prev: char)
    requires '[' !in pre
    ensures Exposed(pre + rest, false, prev) <==> Exposed(rest, false, prev)
    decreases |pre|
  {
    if pre == "" {
      assert pre + rest == rest;
    } else {
      assert (pre + rest)[1..] == pre[1..] + rest;
      BeforeClass(pre[1..], rest, pre[0]);
      if rest != "" {
        assert Exposed(rest, false, prev) <==> Exposed(rest, false, pre[0]);
      }
    }
  }

  /** Inside a class the exposed characters are the unguarded ones. */
  lemma {:induction false} InClass(body: string, post: string, prev: char)
    requires ']' !in body
    ensures Exposed(body + [']'] + post, true, prev) <==> !Guarded(prev, body) || Exposed(post, false, ']')
    decreases |body|
  {
    var p := body + [']'] + post;
    if body == "" {
      assert p[1..] == post && p[0] == ']';
    } else {
      assert p[1..] == body[1..] + [']'] + post && p[0] == body[0];
      assert p[1..][|body| - 1] == ']';
      InClass(body[1..], post, body[0]);
    }
  }

  lemma {:induction false} GuardedSnoc(prev: char, s: string, x: char)
    requires !Fragile(x)
    ensures Guarded(prev, s + [x]) <==> Guarded(prev, s)
    decreases |s|
  {
    if s != "" {
      assert (s + [x])[1..] == s[1..] + [x];
      GuardedSnoc(s[0], s[1..], x);
    }
  }

  /** Escaping a class never shortens it, and keeps its length only when nothing is unguarded. */
  lemma {:induction false} EscapeSetLength(prev: char, s: string)
    ensures |EscapeSet(prev, s, {'^', '{', '}', '$'})| >= |s|
    ensures |EscapeSet(prev, s, {'^', '{', '}', '$'})| == |s| <==> Guarded(prev, s)
    decreases |s|
  {
    if s != "" {
      EscapeSetLength(s[0], s[1..]);
    }
  }

  lemma ClassLength(body: string)
    requires ']' !in body
    ensures var group := ['['] + body + [']'];
            |EscapeClass(group)| >= |group| && (|EscapeClass(group)| == |group| <==> Guarded('[', body))
  {
    var group := ['['] + body + [']'];
    EscapeSetLength(START, group);
    assert group[1..] == body + [']'];
    GuardedSnoc('[', body, ']');
  }

  lemma ExposedAt(p: string, pre: string, body: string, post: string)
    requires '[' !in pre && ']' !in body && p == pre + (['['] + body + [']']) + post
    ensures Exposed(p, false, START) <==> !Guarded('[', body) || Exposed(post, false, START)
  {
    var rest := ['['] + body + [']'] + post;
    assert p == pre + rest;
    BeforeClass(pre, rest, START);
    assert rest[1..] == body + [']'] + post && rest[0] == '[';
    InClass(body, post, '[');
    assert Exposed(post, false, ']') <==> Exposed(post, false, START);
  }

  /** The pass lengthens a pattern exactly when it exposes something. */
  lemma {:induction false} PassLength(p: string)
    ensures |EscapeClasses(p)| >= |p|
    ensures |EscapeClasses(p)| == |p| <==> !Exposed(p, false, START)
    decreases |p|
  {
    var found, pre, body, post := FirstClass(p);
    if found {
      PassLength(post);
      hide Exposed, EscapeClass, EscapeClasses, Guarded;
      EscapeClassesAt(pre, body, post);
      ClassLength(body);
      ExposedAt(p, pre, body, post);
    } else {
      BeforeClass(pre, post, START);
      NoClose(post, false, START);
    }
  }

  lemma UnchangedAt(p: string, pre: string, body: string, post: string)
    requires '[' !in pre && ']' !in body && p == pre + (['['] + body + [']']) + post
    requires Guarded('[', body) && EscapeClasses(post) == post
    ensures EscapeClasses(p) == p
  {
    var group := ['['] + body + [']'];
    assert group[1..] == body + [']'];
    GuardedSnoc('[', body, ']');
    GuardedClass(START, group);
    hide EscapeClasses;
    EscapeClassesAt(pre, body, post);
  }

  /** The pass changes nothing exactly when nothing is exposed. */
  lemma {:induction false} PassUnchanged(p: string)
    ensures EscapeClasses(p) == p <==> !Exposed(p, false, START)
    decreases |p|
  {
    hide Exposed, EscapeClasses, Guarded;
    var found, pre, body, post := FirstClass(p);
    PassLength(p);
    if found && !Exposed(p, false, START) {
      ExposedAt(p, pre, body, post);
      PassUnchanged(post);
      UnchangedAt(p, pre, body, post);
    }
  }

  /** The same, read off a content in one pass. Literal text is always guarded; a character of a hex
      block is exposed when it is fragile, lies inside a '[' with a ']' somewhere after it, and is not
      the second of its pair with a backslash as the first. The brackets may come from literal text
      or from hex blocks. `prev` is the character written last. */
  predicate HexExposed(s: string, inHex: bool, odd: bool, inside: bool, prev: char)
    decreases |s|
  {
    s != "" &&
    if s[0] == '|' then HexExposed(s[1..], !inHex, false, inside, prev)
    else if !inHex then HexExposed(s[1..], false, false, Inside(inside, s[0]), s[0])
    else if s[0] == ' ' then HexExposed(s[1..], true, odd, inside, prev)
    else
      (inside && Fragile(s[0]) && !(odd && prev == '\\') && ']' in s[1..])
      || HexExposed(s[1..], true, !odd, Inside(inside, s[0]), s[0])
  }

  lemma {:induction false} ClosingKept(s: string, inHex: bool, odd: bool)
    ensures ']' in ContentRegex.CompileFrom(s, inHex, odd) <==> ']' in s
    decreases |s|
  {
    if s != "" {
      assert ']' in s <==> s[0] == ']' || ']' in s[1..];
      if s[0] == '|' {
        ClosingKept(s[1..], !inHex, false);
      } else if inHex && s[0] == ' ' {
        ClosingKept(s[1..], true, odd);
      } else {
        ClosingKept(s[1..], inHex, inHex && !odd);
      }
    }
  }

  lemma {:induction false} CompiledExposes(s: string, inHex: bool, odd: bool, inside: bool, prev: char)
    ensures Exposed(ContentRegex.CompileFrom(s, inHex, odd), inside, prev) <==> HexExposed(s, inHex, odd, inside, prev)
    decreases |s|
  {
    if s != "" {
      if s[0] == '|' {
        CompiledExposes(s[1..], !inHex, false, inside, prev);
      } else if inHex && s[0] == ' ' {
        CompiledExposes(s[1..], true, odd, inside, prev);
      } else {
        var c := s[0];
        var tail := ContentRegex.CompileFrom(s[1..], inHex, inHex && !odd);
        CompiledExposes(s[1..], inHex, inHex && !odd, Inside(inside, c), c);
        ClosingKept(s[1..], inHex, inHex && !odd);
        if !inHex {
          TextExposes(c, tail, inside, prev);
        } else if odd {
          assert ([c] + tail)[1..] == tail;
        } else {
          FirstDigitExposes(c, tail, inside, prev);
        }
      }
    }
  }

  lemma TextExposes(c: char, tail: string, inside: bool, prev: char)
    ensures Exposed(ContentRegex.EscapeChar(c) + tail, inside, prev) <==> Exposed(tail, Inside(inside, c), c)
  {
    assert Fragile(c) ==> ContentRegex.IsSpecial(c);
    hide ContentRegex.IsSpecial;
    assert ([c] + tail)[1..] == tail;
    assert (['\\', c] + tail)[1..] == [c] + tail;
  }

  lemma FirstDigitExposes(c: char, tail: string, inside: bool, prev: char)
    ensures Exposed("\\x" + [c] + tail, inside, prev)
            <==> (inside && Fragile(c) && ']' in tail) || Exposed(tail, Inside(inside, c), c)
  {
    var r, r1, r2 := "\\x" + [c] + tail, ['x', c] + tail, [c] + tail;
    assert r[1..] == r1 && r1[1..] == r2 && r2[1..] == tail;
    assert Exposed(r2, inside, 'x') <==> (inside && Fragile(c) && ']' in tail) || Exposed(tail, Inside(inside, c), c);
    assert Exposed(r1, inside, '\\') <==> Exposed(r2, inside, 'x');
    assert Exposed(r, inside, prev) <==> Exposed(r1, inside, '\\');
  }

  lemma {:induction false} CleanExposesNothing(s: string, inHex: bool, odd: bool, inside: bool, prev: char)
    requires CleanHex(s, inHex)
    ensures !HexExposed(s, inHex, odd, inside, prev)
    decreases |s|
  {
    if s != "" {
      if s[0] == '|' {
        CleanExposesNothing(s[1..], !inHex, false, inside, prev);
      } else if inHex && s[0] == ' ' {
        CleanExposesNothing(s[1..], true, odd, inside, prev);
      } else {
        CleanExposesNothing(s[1..], inHex, inHex && !odd, Inside(inside, s[0]), s[0]);
      }
    }
  }

  /** The pass is the identity on a compiled content exactly when no character of a hex block is
      exposed; in particular when the hex blocks hold none of ^ { } $, and so on every content that
      denotes bytes. */
  lemma CompiledContentUnchanged(content: string)
    ensures EscapeClasses(ContentRegex.Compile(content)) == ContentRegex.Compile(content)
            <==> !HexExposed(content, false, false, false, START)
    ensures CleanHex(content, false) ==> !HexExposed(content, false, false, false, START)
    ensures ContentRegex.Denote(content).Some? ==> CleanHex(content, false)
  {
    PassUnchanged(ContentRegex.Compile(content));
    CompiledExposes(content, false, false, false, START);
    if CleanHex(content, false) {
      CleanExposesNothing(content, false, false, false, START);
    }
    if ContentRegex.Denote(content).Some? {
      WellFormedIsCleanHex(content, false, None);
    }
  }

  /** A fragile character in a malformed hex block between two brackets is changed by the pass. */
  lemma MalformedHexIsChanged()
    ensures ContentRegex.Compile("[|^|]") == "\\" + "[\\x^\\]"
    ensures EscapeClasses("\\" + "[\\x^\\]") == "\\" + "[\\x\\^\\]"
  {
    MalformedHexCompiled();
    MalformedClassEscaped();
    LoneClass("\\", "\\x^\\", "[\\x^\\]");
  }

  lemma LoneClass(pre: string, body: string, group: string)
    requires '[' !in pre && ']' !in body && group == ['['] + body + [']']
    ensures EscapeClasses(pre + group) == pre + EscapeClass(group)
  {
    EscapeClassesAt(pre, body, "");
    assert pre + group + "" == pre + group;
    assert pre + EscapeClass(group) + "" == pre + EscapeClass(group);
  }

  lemma MalformedClassEscaped()
    ensures EscapeClass("[\\x^\\]") == "[\\x\\^\\]"
  {
    var cs := {'^', '{', '}', '$'};
    EscapeSetSnoc(START, "[\\x^\\", ']', cs);
    EscapeSetSnoc(START, "[\\x^", '\\', cs);
    assert EscapeSet('x', "^", cs) == "\\^";
    assert "[\\x^"[1..] == "\\x^" && "\\x^"[1..] == "x^" && "x^"[1..] == "^";
    assert EscapeSet('\\', "x^", cs) == "x\\^";
    assert EscapeSet('[', "\\x^", cs) == "\\x\\^";
  }

  lemma MalformedHexCompiled()
    ensures ContentRegex.Compile("[|^|]") == "\\[\\x^\\]"
  {
    var c := "[|^|]";
    assert c[1..] == "|^|]" && "|^|]"[1..] == "^|]" && "^|]"[1..] == "|]" && "|]"[1..] == "]" && "]"[1..] == "";
    assert ContentRegex.IsSpecial('[') && ContentRegex.IsSpecial(']') by {
      assert ContentRegex.SPECIAL[9] == '[' && ContentRegex.SPECIAL[10] == ']';
    }
    assert ContentRegex.CompileFrom("]", false, false) == "\\]";
    assert ContentRegex.CompileFrom("|]", true, true) == "\\]";
    assert ContentRegex.CompileFrom("^|]", true, false) == "\\x^\\]";
    assert ContentRegex.CompileFrom("|^|]", false, false) == "\\x^\\]";
  }

  // ----- wrapping in slashes and taking the pattern out again -----

  /** The position of the last `c`, or None. */
  function LastIndexOf(s: string, c: char): (k: Option<nat>)
    ensures k.Some? ==> k.value < |s| && s[k.value] == c && c !in s[k.value + 1..]
    ensures k.None? ==> c !in s
  {
    if s == "" then None
    else if s[|s| - 1] == c then Some(|s| - 1)
    else
      var k := LastIndexOf(s[..|s| - 1], c);
      if k.Some? then
        assert s[k.value + 1..] == s[..|s| - 1][k.value + 1..] + [s[|s| - 1]];
        k
      else
        assert s == s[..|s| - 1] + [s[|s| - 1]];
        None
  }

  /** `^/(.*)/` with a greedy group that stops at a line end; without a match the line itself. */
  function MatchedPattern(line: string): string {
    if line == "" || line[0] != '/' then line
    else
      var seg := line[1..][..IndexOf(line[1..], '\n')];
      var last := LastIndexOf(seg, '/');
      if last.None? then line else seg[..last.value]
  }

  /** What `to_hyperscan` appends for one line when `to_hs_tools` is off. */
  function ToHyperscanLine(line: string): string {
    EscapeClasses(MatchedPattern(line))
  }

  /** A line that begins with a slash and has another one before its first line end gives what stands
      between the first slash and the last one before that line end, whatever follows; and any other
      line gives itself. */
  lemma MatchedPatternIs(line: string)
    ensures forall q, mid, rest :: SlashGroup(line, q, mid, rest) ==> MatchedPattern(line) == q
    ensures (forall q, mid, rest :: !SlashGroup(line, q, mid, rest)) ==> MatchedPattern(line) == line
  {
    forall q, mid, rest | SlashGroup(line, q, mid, rest)
      ensures MatchedPattern(line) == q
    {
      GroupIsMatched(line, q, mid, rest);
    }
    if (forall q, mid, rest :: !SlashGroup(line, q, mid, rest)) && MatchedPattern(line) != line {
      MatchIsGroup(line);
    }
  }

  lemma MatchIsGroup(line: string)
    requires MatchedPattern(line) != line
    ensures exists q, mid, rest :: SlashGroup(line, q, mid, rest)
  {
    var tail := line[1..];
    assert line == ['/'] + tail;
    var n := IndexOf(tail, '\n');
    var k := LastIndexOf(tail[..n], '/').value;
    hide IndexOf, LastIndexOf, MatchedPattern, SlashGroup;
    GroupOf(tail, n, k);
    assert SlashGroup(line, tail[..n][..k], tail[..n][k + 1..], tail[n..]);
  }

  lemma GroupOf(tail: string, n: nat, k: nat)
    requires k < n <= |tail| && tail[k] == '/' && '/' !in tail[..n][k + 1..] && '\n' !in tail[..n]
    requires n < |tail| ==> tail[n] == '\n'
    ensures SlashGroup(['/'] + tail, tail[..n][..k], tail[..n][k + 1..], tail[n..])
  {
    var seg := tail[..n];
    assert seg == seg[..k] + ['/'] + seg[k + 1..];
    assert tail == seg + tail[n..];
  }

  /** The line is a slash, `q`, a slash, text without a slash up to the line end, and the rest. */
  predicate SlashGroup(line: string, q: string, mid: string, rest: string) {
    var segment := q + ['/'] + mid;
    && line == ['/'] + (segment + rest)
    && '\n' !in segment && '/' !in mid
    && (rest == "" || rest[0] == '\n')
  }

  lemma GroupIsMatched(line: string, q: string, mid: string, rest: string)
    requires SlashGroup(line, q, mid, rest)
    ensures MatchedPattern(line) == q
  {
    var segment := q + ['/'] + mid;
    FirstEndAfter(segment, rest);
    LastIndexOfUnique(q, '/', mid);
    hide IndexOf, LastIndexOf;
    assert line[1..] == segment + rest;
    assert (segment + rest)[..|segment|] == segment && segment[..|q|] == q;
  }

  lemma FirstEndAfter(segment: string, rest: string)
    requires '\n' !in segment && (rest == "" || rest[0] == '\n')
    ensures IndexOf(segment + rest, '\n') == |segment|
  {
    if rest == "" {
      assert segment + rest == segment;
      FirstLineEnd(segment);
    } else {
      assert segment + rest == segment + ['\n'] + rest[1..];
      IndexOfUnique(segment, '\n', rest[1..]);
    }
  }

  lemma FirstLineEnd(s: string)
    requires '\n' !in s
    ensures IndexOf(s, '\n') == |s|
  {
    assert forall k :: 0 <= k < |s| ==> s[k] in s;
  }

  lemma {:induction false} LastIndexOfUnique(a: string, c: char, b: string)
    requires c !in b
    ensures LastIndexOf(a + [c] + b, c) == Some(|a|)
  {
    var s := a + [c] + b;
    if b == "" {
      assert s[|s| - 1] == c;
    } else {
      var init := b[..|b| - 1];
      LastIndexOfUnique(a, c, init);
      assert s[..|s| - 1] == a + [c] + init && s[|s| - 1] == b[|b| - 1] && b[|b| - 1] in b;
    }
  }

  lemma IndexOfInPrefix(p: string, q: string, c: char)
    requires c in p
    ensures IndexOf(p + q, c) < |p|
  {
    var j :| 0 <= j < |p| && p[j] == c;
    assert (p + q)[j] == c;
    assert forall k :: j < k <= |p + q| ==> (p + q)[..k][j] == c;
  }

  /** A pattern wrapped in slashes comes out whole when it holds no line end, and otherwise as
      the whole line or as a proper prefix of the pattern. */
  lemma WrapAndMatch(p: string)
    ensures '\n' !in p ==> MatchedPattern("/" + p + "/") == p
    ensures '\n' in p ==>
              var m := MatchedPattern("/" + p + "/");
              m == "/" + p + "/" || (|m| < |p| && m == p[..|m|] && '\n' !in m)
  {
    var line := "/" + p + "/";
    assert line[1..] == p + "/";
    if '\n' in p {
      IndexOfInPrefix(p, "/", '\n');
    } else {
      assert '\n' !in p + "/";
      assert (p + "/")[..|p| + 1] == p + "/";
      assert (p + "/")[..|p|] == p;
    }
  }

  lemma {:induction false} LineEndsAreKept(s: string, inHex: bool, odd: bool)
    ensures '\n' in ContentRegex.CompileFrom(s, inHex, odd) <==> '\n' in s
    decreases |s|
  {
    if s != "" {
      assert '\n' in s <==> s[0] == '\n' || '\n' in s[1..];
      if s[0] == '|' {
        LineEndsAreKept(s[1..], !inHex, false);
      } else if inHex && s[0] == ' ' {
        LineEndsAreKept(s[1..], true, odd);
      } else {
        LineEndsAreKept(s[1..], inHex, inHex && !odd);
      }
    }
  }

  lemma {:induction false} NoLineEndAdded(prev: char, s: string)
    requires '\n' !in s
    ensures '\n' !in EscapeSet(prev, s, {'^', '{', '}', '$'})
    decreases |s|
  {
    if s != "" {
      NoLineEndAdded(s[0], s[1..]);
    }
  }

  lemma {:induction false} PassAddsNoLineEnd(p: string)
    requires '\n' !in p
    ensures '\n' !in EscapeClasses(p)
    decreases |p|
  {
    var found, pre, body, post := FirstClass(p);
    if found {
      hide EscapeClasses;
      EscapeClassesAt(pre, body, post);
      PassAddsNoLineEnd(post);
      NoLineEndAdded(START, ['['] + body + [']']);
    }
  }

  /** A literal of a rule file reaches Hyperscan as it was compiled, that is, wrapping, extracting
      and escaping give it back, exactly when the content holds no line end and exposes no character
      of a hex block; a well-formed content exactly when it holds no line end. */
  lemma LiteralReachesHyperscan(content: string)
    ensures ToHyperscanLine("/" + ContentRegex.Compile(content) + "/") == ContentRegex.Compile(content)
            <==> '\n' !in content && !HexExposed(content, false, false, false, START)
    ensures ContentRegex.Denote(content).Some? ==> !HexExposed(content, false, false, false, START)
  {
    var p := ContentRegex.Compile(content);
    var m := MatchedPattern("/" + p + "/");
    LineEndsAreKept(content, false, false);
    CompiledContentUnchanged(content);
    hide EscapeClasses, MatchedPattern, HexExposed;
    WrapAndMatch(p);
    if '\n' in p {
      if m == "/" + p + "/" {
        PassLength(m);
      } else {
        PassAddsNoLineEnd(m);
      }
    }
  }
}
