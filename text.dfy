/** String helpers the customer controller relies on: `trim`, ASCII case
    folding for the case-insensitive name lookups, and `escapeRegex`, which
    turns a name into a regular expression that matches only that name. */
module Text {

  import opened Models

  /** The whitespace `String.prototype.trim` removes, restricted to ASCII. */
  predicate IsSpace(c: char) {
    c == ' ' || c == '\t' || c == '\n' || c == '\r' || c as int == 0x0B || c as int == 0x0C
  }

  /** The number of whitespace characters `s` starts with. */
  function Leading(s: string): (k: nat)
    ensures k <= |s|
    ensures forall i :: 0 <= i < k ==> IsSpace(s[i])
    ensures k == |s| || !IsSpace(s[k])
  {
    if s == [] || !IsSpace(s[0]) then 0
    else
      assert forall i :: 1 <= i < |s| ==> s[i] == s[1..][i - 1];
      1 + Leading(s[1..])
  }

  /** The number of whitespace characters `s` ends with. */
  function Trailing(s: string): (k: nat)
    ensures k <= |s|
    ensures forall i :: |s| - k <= i < |s| ==> IsSpace(s[i])
    ensures k == |s| || !IsSpace(s[|s| - k - 1])
  {
    if s == [] || !IsSpace(s[|s| - 1]) then 0
    else 1 + Trailing(s[..|s| - 1])
  }

  /** `s.trim()`: the infix of `s` left after removing leading and trailing whitespace. */
  function Trim(s: string): (r: string)
    ensures Leading(s) + |r| <= |s| && r == s[Leading(s)..Leading(s) + |r|]
    ensures forall i :: 0 <= i < Leading(s) || Leading(s) + |r| <= i < |s| ==> IsSpace(s[i])
    ensures r == [] || (!IsSpace(r[0]) && !IsSpace(r[|r| - 1]))
    ensures r == [] <==> forall i :: 0 <= i < |s| ==> IsSpace(s[i])
  {
    var k := Leading(s);
    var e := Trailing(s[k..]);
    TrimShape(s, k, e);
    s[k..|s| - e]
  }

  /** What `Trim` is, stated on the two counts it is built from: `k` leading
      whitespace characters of `s`, then `e` trailing ones of what is left. */
  lemma TrimShape(s: string, k: nat, e: nat)
    requires k <= |s| && (forall i :: 0 <= i < k ==> IsSpace(s[i])) && (k == |s| || !IsSpace(s[k]))
    requires e <= |s| - k && (forall j :: |s| - k - e <= j < |s| - k ==> IsSpace(s[k..][j]))
    requires e == |s| - k || !IsSpace(s[k..][|s| - k - e - 1])
    ensures k + e <= |s|
    ensures forall i :: 0 <= i < k || |s| - e <= i < |s| ==> IsSpace(s[i])
    ensures k < |s| - e ==> !IsSpace(s[k]) && !IsSpace(s[|s| - e - 1])
    ensures k == |s| - e <==> forall i :: 0 <= i < |s| ==> IsSpace(s[i])
  {
    var t := s[k..];
    assert |t| == |s| - k;
    assert forall j :: |t| - e <= j < |t| ==> IsSpace(t[j]);
    forall i | |s| - e <= i < |s| ensures IsSpace(s[i]) {
      assert s[i] == t[i - k];
    }
    if k < |s| - e {
      assert s[|s| - e - 1] == t[|t| - e - 1];
      assert !IsSpace(s[k]);
    } else {
      forall i | 0 <= i < |s| ensures IsSpace(s[i]) {
        assert i < k || |s| - e <= i;
      }
    }
  }

  /** Trimming is idempotent: a trimmed name is stored and later trimmed again unchanged. */
  lemma TrimIdempotent(s: string)
    ensures Trim(Trim(s)) == Trim(s)
  {
    var r := Trim(s);
    assert Leading(r) == 0;
    assert r[0..] == r;
    assert Trailing(r) == 0;
  }

  function LowerChar(c: char): (d: char)
    ensures 'A' <= c <= 'Z' ==> d as int == c as int + 32
    ensures !('A' <= c <= 'Z') ==> d == c
  {
    if 'A' <= c <= 'Z' then (c as int + 32) as char else c
  }

  /** ASCII lower-casing, the case folding of the case-insensitive lookups. */
  function Lower(s: string): (r: string)
    ensures |r| == |s|
    ensures forall i :: 0 <= i < |s| ==> r[i] == LowerChar(s[i])
  {
    seq(|s|, i requires 0 <= i < |s| => LowerChar(s[i]))
  }

  /** Equality ignoring (ASCII) case. */
  predicate EqualsIgnoreCase(a: string, b: string) {
    Lower(a) == Lower(b)
  }

  /** The characters `escapeRegex` protects: `. * + ? ^ $ { } ( ) | [ ] \`. */
  predicate IsRegexSpecial(c: char) {
    c == '.' || c == '*' || c == '+' || c == '?' || c == '^' || c == '$' || c == '{' || c == '}'
    || c == '(' || c == ')' || c == '|' || c == '[' || c == ']' || c == '\\'
  }

  function CountSpecial(s: string): nat {
    if s == [] then 0 else (if IsRegexSpecial(s[0]) then 1 else 0) + CountSpecial(s[1..])
  }

  /** `escapeRegex(value)`: each special character gets a backslash in front of it. */
  function EscapeRegex(s: string): (r: string)
    ensures |r| == |s| + CountSpecial(s)
  {
    if s == [] then []
    else if IsRegexSpecial(s[0]) then ['\\', s[0]] + EscapeRegex(s[1..])
    else [s[0]] + EscapeRegex(s[1..])
  }

  /** The literal string an (unanchored) pattern denotes when it is made only of
      ordinary characters and escaped special characters; `None` when the
      pattern contains an operator, a dangling backslash or another escape. */
  function Unescape(p: string): (r: Option<string>)
  {
    if p == [] then Some([])
    else if p[0] == '\\' then
      if |p| >= 2 && IsRegexSpecial(p[1]) then
        match Unescape(p[2..])
        case Some(rest) => Some([p[1]] + rest)
        case None => None
      else None
    else if IsRegexSpecial(p[0]) then None
    else
      match Unescape(p[1..])
      case Some(rest) => Some([p[0]] + rest)
      case None => None
  }

  /** Removing the inserted backslashes gives the input back. */
  lemma {:induction false} UnescapeEscapeRegex(s: string)
    ensures Unescape(EscapeRegex(s)) == Some(s)
  {
    if s != [] {
      UnescapeEscapeRegex(s[1..]);
      var e := EscapeRegex(s);
      if IsRegexSpecial(s[0]) {
        assert e[2..] == EscapeRegex(s[1..]);
      } else {
        assert e[1..] == EscapeRegex(s[1..]);
      }
      assert s == [s[0]] + s[1..];
    }
  }

  /** Escaping works character by character: the escaped form of a
      concatenation is the concatenation of the escaped forms. */
  lemma {:induction false} EscapeRegexConcat(a: string, b: string)
    ensures EscapeRegex(a + b) == EscapeRegex(a) + EscapeRegex(b)
  {
    if a == [] {
      assert a + b == b;
    } else {
      assert (a + b)[0] == a[0];
      assert (a + b)[1..] == a[1..] + b;
      EscapeRegexConcat(a[1..], b);
    }
  }

  /** The escaped form `e` holds the character `c` at position `j`, directly
      behind a backslash when `c` is special. */
  predicate EscapedAt(e: string, j: nat, c: char) {
    if IsRegexSpecial(c) then j + 1 < |e| && e[j] == '\\' && e[j + 1] == c
    else j < |e| && e[j] == c
  }

  /** The character at position `i` of `s` sits where the escaped prefix ends. */
  lemma EscapeRegexAt(s: string, i: nat)
    requires i < |s|
    ensures EscapedAt(EscapeRegex(s), |EscapeRegex(s[..i])|, s[i])
  {
    var pre, c, post := s[..i], [s[i]], s[i + 1..];
    assert s == pre + (c + post);
    EscapeRegexConcat(pre, c + post);
    EscapeRegexConcat(c, post);
    assert c[1..] == [];
  }

  /** Escaping adds no ordinary character, and leaves a name without special characters as it is. */
  lemma {:induction false} EscapeRegexCopies(s: string)
    ensures forall c :: c in EscapeRegex(s) && !IsRegexSpecial(c) ==> c in s
    ensures CountSpecial(s) == 0 ==> EscapeRegex(s) == s
  {
    if s != [] {
      EscapeRegexCopies(s[1..]);
      var e := EscapeRegex(s);
      if IsRegexSpecial(s[0]) {
        assert e == ['\\', s[0]] + EscapeRegex(s[1..]);
      } else {
        assert e == [s[0]] + EscapeRegex(s[1..]);
      }
      assert s == [s[0]] + s[1..];
    }
  }

  /** Every character outside the special set is copied as is; every
      special one appears directly behind a backslash, at the position its
      escaped prefix ends; with nothing to escape the name is its own pattern. */
  lemma EscapeRegexShape(s: string)
    ensures forall c :: c in EscapeRegex(s) && !IsRegexSpecial(c) ==> c in s
    ensures forall i :: 0 <= i < |s| ==> EscapedAt(EscapeRegex(s), |EscapeRegex(s[..i])|, s[i])
    ensures CountSpecial(s) == 0 ==> EscapeRegex(s) == s
  {
    EscapeRegexCopies(s);
    forall i | 0 <= i < |s| ensures EscapedAt(EscapeRegex(s), |EscapeRegex(s[..i])|, s[i]) {
      EscapeRegexAt(s, i);
    }
  }

  /** Two names escape to the same pattern only when they are the same name. */
  lemma EscapeRegexInjective(a: string, b: string)
    requires EscapeRegex(a) == EscapeRegex(b)
    ensures a == b
  {
    UnescapeEscapeRegex(a);
    UnescapeEscapeRegex(b);
  }

  /** Whether a stored `candidate` matches the anchored, case-insensitive
      pattern `^literal$`. MongoDB evaluates `$regex` with PCRE, where `$`
      also matches just before a final newline, so "Bob\n" matches `^Bob$`. */
  predicate AnchoredMatch(literal: string, candidate: string) {
    || EqualsIgnoreCase(literal, candidate)
    || (|candidate| == |literal| + 1 && candidate[|literal|] == '\n' && EqualsIgnoreCase(literal, candidate[..|literal|]))
  }

  /** On a candidate that does not end in a newline the anchored match is
      plain equality ignoring case; "Bob\n" is the case where they differ. */
  lemma AnchoredMatchWithoutNewline(literal: string, candidate: string)
    ensures candidate == [] || candidate[|candidate| - 1] != '\n' ==>
      (AnchoredMatch(literal, candidate) <==> EqualsIgnoreCase(literal, candidate))
    ensures AnchoredMatch("Bob", "Bob\n") && !EqualsIgnoreCase("Bob", "Bob\n")
  {
    assert "Bob\n"[..3] == "Bob";
    assert |Lower("Bob")| != |Lower("Bob\n")|;
  }

  /** Whether the anchored, case-insensitive pattern `^p$` (options "i")
      matches `candidate`, for the patterns that denote a literal. */
  predicate LiteralMatch(p: string, candidate: string) {
    match Unescape(p)
    case Some(literal) => AnchoredMatch(literal, candidate)
    case None => false
  }

  /** The purpose of `escapeRegex`: the lookup `^escapeRegex(name)$`, case
      insensitive, matches what the anchored literal `name` matches:
      equality ignoring case, or that followed by a final newline. */
  lemma EscapedLookupMatchesLiteral(name: string, candidate: string)
    ensures LiteralMatch(EscapeRegex(name), candidate) <==> AnchoredMatch(name, candidate)
  {
    UnescapeEscapeRegex(name);
  }

  /** Without escaping, a name holding a special character is no literal
      pattern: "a.b" stands for a regular expression, not for itself. */
  lemma UnescapedNameIsNotLiteral()
    ensures Unescape("a.b") == None
    ensures Unescape(EscapeRegex("a.b")) == Some("a.b")
  {
    UnescapeEscapeRegex("a.b");
  }

  /** The order of an ascending sort on a string field: character codes
      compared left to right, a proper prefix before the longer string. */
  predicate StrLeq(a: string, b: string) {
    a == [] || (b != [] && (a[0] < b[0] || (a[0] == b[0] && StrLeq(a[1..], b[1..]))))
  }

  lemma {:induction false} StrLeqTotal(a: string, b: string)
    ensures StrLeq(a, b) || StrLeq(b, a)
  {
    if a != [] && b != [] && a[0] == b[0] {
      StrLeqTotal(a[1..], b[1..]);
    }
  }

  lemma {:induction false} StrLeqTransitive(a: string, b: string, c: string)
    requires StrLeq(a, b) && StrLeq(b, c)
    ensures StrLeq(a, c)
  {
    if a != [] && a[0] == b[0] && b[0] == c[0] {
      StrLeqTransitive(a[1..], b[1..], c[1..]);
    }
  }

  /** Upper case sorts before lower case: "Zed" comes before "alice". */
  lemma StrLeqIsCaseSensitive()
    ensures StrLeq("Zed", "alice") && !StrLeq("alice", "Zed")
  {
  }
}
