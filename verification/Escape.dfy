/** Escaping for HTML text and double-quoted attributes, and undoing it. */
module Escape {
  import opened Text

  function Replace(s: string, c: char, with: string): string {
    if s == [] then [] else (if s[0] == c then with else [s[0]]) + Replace(s[1..], c, with)
  }

  /** Four passes over the whole string, ampersands first. */
  function Esc(s: string): string {
    Replace(Replace(Replace(Replace(s, '&', "&amp;"), '"', "&quot;"), '<', "&lt;"), '>', "&gt;")
  }

  function Entity(c: char): string {
    match c
    case '&' => "&amp;"
    case '"' => "&quot;"
    case '<' => "&lt;"
    case '>' => "&gt;"
    case _ => [c]
  }

  /** One pass, character by character. */
  function EscapedByCharacter(s: string): string {
    if s == [] then [] else Entity(s[0]) + EscapedByCharacter(s[1..])
  }

  predicate StartsWith(s: string, prefix: string) {
    |prefix| <= |s| && s[..|prefix|] == prefix
  }

  /** The character at the front of a text, and how much of the text stands for it: one
      of the four entities, or any single character. */
  function Front(s: string): (char, nat)
    requires s != []
  {
    if StartsWith(s, "&amp;") then ('&', 5)
    else if StartsWith(s, "&quot;") then ('"', 6)
    else if StartsWith(s, "&lt;") then ('<', 4)
    else if StartsWith(s, "&gt;") then ('>', 4)
    else (s[0], 1)
  }

  /** What a parser makes of the four entities; any other ampersand stays as it is. */
  function Unescape(s: string): string {
    if s == [] then [] else [Front(s).0] + Unescape(s[Front(s).1..])
  }

  lemma {:induction false} ReplaceConcat(a: string, b: string, c: char, with: string)
    ensures Replace(a + b, c, with) == Replace(a, c, with) + Replace(b, c, with)
  {
    if a == [] {
      assert a + b == b;
    } else {
      ReplaceConcat(a[1..], b, c, with);
      var first := if a[0] == c then with else [a[0]];
      assert (a + b)[1..] == a[1..] + b && (a + b)[0] == a[0];
      assert first + (Replace(a[1..], c, with) + Replace(b, c, with)) == (first + Replace(a[1..], c, with)) + Replace(b, c, with);
    }
  }

  lemma {:induction false} ReplaceAbsent(s: string, c: char, with: string)
    requires c !in s
    ensures Replace(s, c, with) == s
  {
    if s != [] {
      ReplaceAbsent(s[1..], c, with);
    }
  }

  lemma ReplaceOne(c: char, d: char, with: string)
    ensures Replace([c], d, with) == if c == d then with else [c]
  {
    assert [c][1..] == [];
  }

  lemma EscConcat(a: string, b: string)
    ensures Esc(a + b) == Esc(a) + Esc(b)
  {
    ReplaceConcat(a, b, '&', "&amp;");
    var a1, b1 := Replace(a, '&', "&amp;"), Replace(b, '&', "&amp;");
    ReplaceConcat(a1, b1, '"', "&quot;");
    var a2, b2 := Replace(a1, '"', "&quot;"), Replace(b1, '"', "&quot;");
    ReplaceConcat(a2, b2, '<', "&lt;");
    ReplaceConcat(Replace(a2, '<', "&lt;"), Replace(b2, '<', "&lt;"), '>', "&gt;");
  }

  /** No pass touches what an earlier pass wrote. */
  lemma EscOne(c: char)
    ensures Esc([c]) == Entity(c)
  {
    hide Replace;
    ReplaceOne(c, '&', "&amp;");
    ReplaceOne(c, '"', "&quot;");
    ReplaceOne(c, '<', "&lt;");
    ReplaceOne(c, '>', "&gt;");
    match c {
      case '&' =>
        ReplaceAbsent("&amp;", '"', "&quot;");
        ReplaceAbsent("&amp;", '<', "&lt;");
        ReplaceAbsent("&amp;", '>', "&gt;");
      case '"' =>
        ReplaceAbsent("&quot;", '<', "&lt;");
        ReplaceAbsent("&quot;", '>', "&gt;");
      case '<' =>
        ReplaceAbsent("&lt;", '>', "&gt;");
      case _ =>
    }
  }

  /** The four entities by name; any other character stands for itself. */
  lemma EntitiesAreSpelled(c: char)
    ensures Esc("&") == "&amp;" && Esc("\"") == "&quot;" && Esc("<") == "&lt;" && Esc(">") == "&gt;"
    ensures c !in {'&', '"', '<', '>'} ==> Esc([c]) == [c]
  {
    EscOne('&');
    EscOne('"');
    EscOne('<');
    EscOne('>');
    EscOne(c);
    hide Esc;
  }

  /** The four passes are one substitution per character. */
  lemma {:induction false} EscIsPerCharacter(s: string)
    ensures Esc(s) == EscapedByCharacter(s)
  {
    if s != [] {
      EscIsPerCharacter(s[1..]);
      EscOne(s[0]);
      assert s == [s[0]] + s[1..];
      EscConcat([s[0]], s[1..]);
    }
  }

  lemma {:induction false} EscapedIsSafe(s: string)
    ensures Avoids(EscapedByCharacter(s), {'"', '<', '>'})
  {
    if s != [] {
      EscapedIsSafe(s[1..]);
      assert Avoids(Entity(s[0]), {'"', '<', '>'});
    }
  }

  /** No quote or angle bracket is left raw, so no value can end its attribute or tag. */
  lemma EscIsSafe(s: string)
    ensures Avoids(Esc(s), {'"', '<', '>'})
  {
    EscIsPerCharacter(s);
    EscapedIsSafe(s);
  }

  lemma SecondDiffers(s: string, prefix: string)
    requires |s| > 1 && |prefix| > 1 && s[1] != prefix[1]
    ensures !StartsWith(s, prefix)
  {
    assert |prefix| <= |s| ==> s[..|prefix|][1] == s[1];
  }

  lemma FrontOfEntity(c: char, rest: string)
    ensures Front(Entity(c) + rest) == (c, |Entity(c)|)
  {
    var s := Entity(c) + rest;
    assert s[..|Entity(c)|] == Entity(c) && s[0] == Entity(c)[0];
    match c {
      case '&' =>
      case '"' =>
        SecondDiffers(s, "&amp;");
      case '<' =>
        SecondDiffers(s, "&amp;");
        SecondDiffers(s, "&quot;");
      case '>' =>
        SecondDiffers(s, "&amp;");
        SecondDiffers(s, "&quot;");
        SecondDiffers(s, "&lt;");
      case _ =>
    }
  }

  lemma UnescapeEntity(c: char, rest: string)
    ensures Unescape(Entity(c) + rest) == [c] + Unescape(rest)
  {
    FrontOfEntity(c, rest);
    assert Entity(c) != "";
    hide Front;
    hide Entity;
    assert (Entity(c) + rest)[|Entity(c)|..] == rest;
  }

  lemma {:induction false} UnescapeUndoes(s: string)
    ensures Unescape(EscapedByCharacter(s)) == s
  {
    if s != [] {
      UnescapeUndoes(s[1..]);
      UnescapeEntity(s[0], EscapedByCharacter(s[1..]));
      assert s == [s[0]] + s[1..];
    }
  }

  /** A text without ampersands stands for itself. */
  lemma {:induction false} UnescapePlain(s: string)
    requires '&' !in s
    ensures Unescape(s) == s
  {
    if s != [] {
      UnescapePlain(s[1..]);
      assert forall prefix :: StartsWith(s, prefix) && prefix != "" ==> prefix[0] == s[0];
    }
  }

  /** Unescaping gives back every string. */
  lemma EscIsUndone(s: string)
    ensures Unescape(Esc(s)) == s
  {
    EscIsPerCharacter(s);
    UnescapeUndoes(s);
  }
}
