/**
 The HTML escaper used before user text is placed in a marker popup
 (`escapeHtml` in script.js). The regular expression `[&<>"']` picks out five
 characters, each of which is replaced by a fixed entity; every other
 character is copied unchanged.

 Besides the escaper itself, this module defines its inverse, the decoder
 `Unescape`, and proves that the two are inverse on exactly the strings the
 escaper can produce, which are characterised by `Safe`.
 */
module HtmlEscape {
  import opened Wrappers

  /** The characters matched by the character class `[&<>"']`. */
  predicate IsSpecial(c: char) {
    c == '&' || c == '<' || c == '>' || c == '"' || c == '\''
  }

  /** The characters that must never appear raw in escaped text. */
  predicate Dangerous(c: char) {
    c == '<' || c == '>' || c == '"' || c == '\''
  }

  /** The replacement table: the entity that stands for a special character. */
  function Entity(c: char): (e: string)
    requires IsSpecial(c)
    ensures 4 <= |e| && e[0] == '&' && e[|e| - 1] == ';'
    ensures forall i :: 0 <= i < |e| ==> !Dangerous(e[i])
    ensures forall i :: 0 < i < |e| ==> e[i] != '&'
  {
    match c
    case '&' => "&amp;"
    case '<' => "&lt;"
    case '>' => "&gt;"
    case '"' => "&quot;"
    case _ => "&#39;"
  }

  /** What one input character becomes in the output. */
  function EscapeChar(c: char): (r: string)
    ensures !IsSpecial(c) ==> r == [c]
    ensures IsSpecial(c) <==> |r| > 1
    ensures IsSpecial(c) ==> r[0] == '&' && r[|r| - 1] == ';'
  {
    if IsSpecial(c) then Entity(c) else [c]
  }

  /** The escaped form of a string: each character replaced, in order. */
  function Escape(s: string): (r: string)
    ensures |r| >= |s|
    decreases |s|
  {
    if s == [] then [] else EscapeChar(s[0]) + Escape(s[1..])
  }

  /**
   `escapeHtml(s)`: an absent value (or the empty string) gives the empty
   string; otherwise every match of `[&<>"']` is replaced through the table
   while the rest of the string is copied, scanning left to right.
   */
  method EscapeHtml(s: Option<string>) returns (r: string)
    ensures s.None? ==> r == ""
    ensures s.Some? ==> r == Escape(s.value)
    ensures Safe(r)
  {
    if s.None? || s.value == "" {
      r := "";
      return;
    }
    var text := s.value;
    r := "";
    var i := 0;
    while i < |text|
      invariant 0 <= i <= |text|
      invariant r + Escape(text[i..]) == Escape(text)
    {
      assert text[i..][1..] == text[i + 1..];
      r := r + EscapeChar(text[i]);
      i := i + 1;
    }
    assert text[i..] == [];
    EscapeIsSafe(text);
  }

  // ---------------------------------------------------------------------------
  // Decoding: the inverse of Escape
  // ---------------------------------------------------------------------------

  /** The special character whose entity begins `t`, if any. */
  function EntityPrefix(t: string): (r: Option<char>)
    ensures r.Some? ==> IsSpecial(r.value) && Entity(r.value) <= t
    ensures r.None? ==> forall c :: IsSpecial(c) ==> !(Entity(c) <= t)
  {
    if Entity('&') <= t then Some('&')
    else if Entity('<') <= t then Some('<')
    else if Entity('>') <= t then Some('>')
    else if Entity('"') <= t then Some('"')
    else if Entity('\'') <= t then Some('\'')
    else None
  }

  /** No two entities agree on their second character, so at most one of
      them can begin a given text. */
  lemma EntityPrefixUnique(t: string, c: char, d: char)
    requires IsSpecial(c) && IsSpecial(d)
    requires Entity(c) <= t && Entity(d) <= t
    ensures c == d
  {
    assert Entity(c)[1] == t[1] == Entity(d)[1];
  }

  /** The entity at the head of a text is the one that is found there. */
  lemma EntityPrefixOfEntity(c: char, rest: string)
    requires IsSpecial(c)
    ensures EntityPrefix(Entity(c) + rest) == Some(c)
  {
    var t := Entity(c) + rest;
    assert Entity(c) <= t;
    EntityPrefixUnique(t, c, EntityPrefix(t).value);
  }

  /** A text that does not start with `&` begins no entity. */
  lemma EntityPrefixNeedsAmpersand(t: string)
    requires t != [] && t[0] != '&'
    ensures EntityPrefix(t) == None
  {
  }

  function Prepend(c: char, rest: Option<string>): Option<string> {
    match rest
    case None => None
    case Some(s) => Some([c] + s)
  }

  /**
   Reads escaped text back: each entity becomes its character, any other
   non-special character is itself, and a raw special character (or an `&`
   that starts no entity) makes the text undecodable.
   */
  function Unescape(t: string): (r: Option<string>)
    decreases |t|
  {
    if t == [] then Some([])
    else match EntityPrefix(t)
      case Some(c) => Prepend(c, Unescape(t[|Entity(c)|..]))
      case None => if IsSpecial(t[0]) then None else Prepend(t[0], Unescape(t[1..]))
  }

  /** Text that is safe to place in HTML: no raw `<`, `>`, `"` or `'`, and
      every `&` begins one of the five entities. */
  ghost predicate Safe(t: string) {
    && (forall i :: 0 <= i < |t| ==> !Dangerous(t[i]))
    && (forall i :: 0 <= i < |t| && t[i] == '&' ==> EntityPrefix(t[i..]).Some?)
  }

  /** A string in which the escaper finds nothing to replace. */
  ghost predicate Plain(s: string) {
    forall i :: 0 <= i < |s| ==> !IsSpecial(s[i])
  }

  // ---------------------------------------------------------------------------
  // Properties
  // ---------------------------------------------------------------------------

  /** An absent value and the empty string both escape to the empty string. */
  method EscapeHtmlEmpty() returns (absent: string, empty: string)
    ensures absent == "" && empty == ""
  {
    absent := EscapeHtml(None);
    empty := EscapeHtml(Some(""));
  }

  /** Escaping is the in-order concatenation of the per-character map. */
  lemma {:induction false} EscapeAppend(a: string, b: string)
    ensures Escape(a + b) == Escape(a) + Escape(b)
    decreases |a|
  {
    if a == [] {
      assert a + b == b;
    } else {
      assert (a + b)[1..] == a[1..] + b;
      EscapeAppend(a[1..], b);
    }
  }

  lemma EscapeSingle(c: char)
    ensures Escape([c]) == EscapeChar(c)
  {
    assert [c][1..] == [];
  }

  /** A prefix entity survives anything appended after it. */
  lemma EntityPrefixExtends(u: string, v: string)
    requires EntityPrefix(u).Some?
    ensures EntityPrefix(u + v).Some?
  {
    var c := EntityPrefix(u).value;
    assert Entity(c) <= u + v;
  }

  lemma {:induction false} SafeAppend(a: string, b: string)
    requires Safe(a) && Safe(b)
    ensures Safe(a + b)
  {
    var t := a + b;
    forall i | 0 <= i < |t|
      ensures !Dangerous(t[i])
    {
      if i < |a| { assert t[i] == a[i]; } else { assert t[i] == b[i - |a|]; }
    }
    forall i | 0 <= i < |t| && t[i] == '&'
      ensures EntityPrefix(t[i..]).Some?
    {
      if i < |a| {
        assert t[i] == a[i];
        assert t[i..] == a[i..] + b;
        EntityPrefixExtends(a[i..], b);
      } else {
        assert t[i] == b[i - |a|];
        assert t[i..] == b[i - |a|..];
      }
    }
  }

  lemma EscapeCharIsSafe(c: char)
    ensures Safe(EscapeChar(c))
  {
    if IsSpecial(c) {
      var t := Entity(c);
      EntityPrefixOfEntity(c, []);
      assert t + [] == t;
      forall i | 0 <= i < |t| && t[i] == '&'
        ensures EntityPrefix(t[i..]).Some?
      {
        assert i == 0 && t[0..] == t;
      }
    }
  }

  /** The escaper's output contains no raw `<`, `>`, `"` or `'`, and each of
      its `&` characters begins one of the five entities. */
  lemma {:induction false} EscapeIsSafe(s: string)
    ensures Safe(Escape(s))
    decreases |s|
  {
    if s != [] {
      EscapeCharIsSafe(s[0]);
      EscapeIsSafe(s[1..]);
      SafeAppend(EscapeChar(s[0]), Escape(s[1..]));
    }
  }

  /** Decoding undoes escaping. */
  lemma {:induction false} UnescapeEscape(s: string)
    ensures Unescape(Escape(s)) == Some(s)
    decreases |s|
  {
    if s != [] {
      var c := s[0];
      var t := Escape(s);
      var rest := Escape(s[1..]);
      assert t == EscapeChar(c) + rest;
      UnescapeEscape(s[1..]);
      if IsSpecial(c) {
        EntityPrefixOfEntity(c, rest);
        assert t[|Entity(c)|..] == rest;
      } else {
        assert t[0] == c;
        EntityPrefixNeedsAmpersand(t);
        assert t[1..] == rest;
      }
      assert [c] + s[1..] == s;
    }
  }

  /** One decoding step: a decodable text splits into the escape of its first
      decoded character and the rest. */
  lemma UnescapeHead(t: string) returns (c: char, u: string)
    requires t != [] && Unescape(t).Some?
    ensures t == EscapeChar(c) + u
    ensures Unescape(t) == Prepend(c, Unescape(u))
  {
    var p := EntityPrefix(t);
    if p.Some? {
      c, u := p.value, t[|Entity(p.value)|..];
    } else {
      c, u := t[0], t[1..];
    }
  }

  /** Whatever decodes was produced by the escaper from what it decodes to. */
  lemma {:induction false} EscapeUnescape(t: string, s: string)
    requires Unescape(t) == Some(s)
    ensures Escape(s) == t
    decreases |t|
  {
    if t != [] {
      var c, u := UnescapeHead(t);
      var rest := Unescape(u).value;
      EscapeUnescape(u, rest);
      assert s == [c] + rest;
      EscapeAppend([c], rest);
      EscapeSingle(c);
    }
  }

  /** Escaping and decoding are inverse: `Escape(s) == t` exactly when `t`
      decodes to `s`. */
  lemma EscapeRoundTrip(s: string, t: string)
    ensures Escape(s) == t <==> Unescape(t) == Some(s)
  {
    if Escape(s) == t {
      UnescapeEscape(s);
    }
    if Unescape(t) == Some(s) {
      EscapeUnescape(t, s);
    }
  }

  /** Different inputs never escape to the same output. */
  lemma EscapeInjective(a: string, b: string)
    requires Escape(a) == Escape(b)
    ensures a == b
  {
    UnescapeEscape(a);
    UnescapeEscape(b);
  }

  lemma SafeSuffix(t: string, k: nat)
    requires Safe(t) && k <= |t|
    ensures Safe(t[k..])
  {
    var u := t[k..];
    forall i | 0 <= i < |u|
      ensures !Dangerous(u[i])
    {
      assert u[i] == t[k + i];
    }
    forall i | 0 <= i < |u| && u[i] == '&'
      ensures EntityPrefix(u[i..]).Some?
    {
      assert u[i] == t[k + i];
      assert u[i..] == t[k + i..];
    }
  }

  /** Every safe text can be decoded. */
  lemma {:induction false} SafeDecodes(t: string)
    requires Safe(t)
    ensures Unescape(t).Some?
    decreases |t|
  {
    if t != [] {
      assert t[0..] == t;
      match EntityPrefix(t)
      case Some(c) =>
        SafeSuffix(t, |Entity(c)|);
        SafeDecodes(t[|Entity(c)|..]);
      case None =>
        assert !IsSpecial(t[0]) by {
          assert !Dangerous(t[0]);
        }
        SafeSuffix(t, 1);
        SafeDecodes(t[1..]);
    }
  }

  /** The escaper's outputs are exactly the safe texts. */
  lemma SafeIsImage(t: string)
    ensures Safe(t) <==> Unescape(t).Some?
    ensures Safe(t) <==> exists s :: Escape(s) == t
  {
    if Safe(t) {
      SafeDecodes(t);
      EscapeUnescape(t, Unescape(t).value);
    } else {
      forall s ensures Escape(s) != t {
        EscapeIsSafe(s);
      }
      if Unescape(t).Some? {
        EscapeUnescape(t, Unescape(t).value);
      }
    }
  }

  lemma PlainCons(s: string)
    requires s != []
    ensures Plain(s) <==> !IsSpecial(s[0]) && Plain(s[1..])
  {
    if !IsSpecial(s[0]) && Plain(s[1..]) {
      forall i | 0 <= i < |s| ensures !IsSpecial(s[i]) {
        if i > 0 { assert s[i] == s[1..][i - 1]; }
      }
    }
    if Plain(s) {
      forall i | 0 <= i < |s[1..]| ensures !IsSpecial(s[1..][i]) {
        assert s[1..][i] == s[i + 1];
      }
    }
  }

  /** Escaping never shortens a string, keeps its length exactly when there
      is nothing to replace, and then leaves it unchanged. */
  lemma {:induction false} EscapeLength(s: string)
    ensures |Escape(s)| >= |s|
    ensures |Escape(s)| == |s| <==> Plain(s)
    ensures Escape(s) == s <==> Plain(s)
    decreases |s|
  {
    if s != [] {
      EscapeLength(s[1..]);
      PlainCons(s);
      if Escape(s) == s {
        assert |Escape(s)| == |s|;
      }
      if Plain(s) {
        assert Escape(s) == [s[0]] + s[1..];
      }
    }
  }
}
