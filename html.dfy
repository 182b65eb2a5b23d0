/**
 * HTML escaping of text placed in markup: each of the characters that could
 * open a tag, close an attribute or start an entity is replaced by its
 * character reference. Two escapers are modelled: markdown-it's
 * `utils.escapeHtml` (&, <, > and ") and the viewer's own, which also
 * escapes the apostrophe.
 */
module Html {
  import opened Wrappers
  import opened Strings

  /** The characters an escaper replaces; `apostrophe` selects whether "'" is one of them. */
  predicate Special(c: char, apostrophe: bool) {
    c == '&' || c == '<' || c == '>' || c == '"' || (apostrophe && c == '\'')
  }

  /** What one character becomes. */
  function Entity(c: char, apostrophe: bool): (r: string)
    ensures !Special(c, apostrophe) ==> r == [c]
    ensures Special(c, apostrophe) ==> |r| >= 4 && r[0] == '&' && r[|r| - 1] == ';'
  {
    if c == '&' then "&amp;"
    else if c == '<' then "&lt;"
    else if c == '>' then "&gt;"
    else if c == '"' then "&quot;"
    else if apostrophe && c == '\'' then "&#039;"
    else [c]
  }

  /** Escaping character by character. */
  function Escape(s: string, apostrophe: bool): string
    decreases |s|
  {
    if |s| == 0 then "" else Entity(s[0], apostrophe) + Escape(s[1..], apostrophe)
  }

  /** The character a reference at the start of `s` stands for, and the reference's length. */
  function Reference(s: string): (r: Option<(char, nat)>)
    ensures r.Some? ==> 0 < r.value.1 <= |s|
  {
    if StartsWith(s, "&amp;") then Some(('&', 5))
    else if StartsWith(s, "&lt;") then Some(('<', 4))
    else if StartsWith(s, "&gt;") then Some(('>', 4))
    else if StartsWith(s, "&quot;") then Some(('"', 6))
    else if StartsWith(s, "&#039;") then Some(('\'', 6))
    else None
  }

  /** Reads the character references `Escape` writes back into characters; anything else is kept. */
  function Unescape(s: string): string
    decreases |s|
  {
    if |s| == 0 then ""
    else
      match Reference(s)
      case Some((c, n)) => [c] + Unescape(s[n..])
      case None => [s[0]] + Unescape(s[1..])
  }

  lemma {:induction false} EscapeConcat(a: string, b: string, apostrophe: bool)
    ensures Escape(a + b, apostrophe) == Escape(a, apostrophe) + Escape(b, apostrophe)
    decreases |a|
  {
    if |a| == 0 {
      assert a + b == b;
    } else {
      assert (a + b)[1..] == a[1..] + b;
      EscapeConcat(a[1..], b, apostrophe);
    }
  }

  lemma ReferenceOfEntity(c: char, apostrophe: bool, rest: string)
    ensures Reference(Entity(c, apostrophe) + rest) ==
              if Special(c, apostrophe) then Some((c, |Entity(c, apostrophe)|)) else None
  {
    var e := Entity(c, apostrophe);
    var s := e + rest;
    assert s[..|e|] == e;
    if !Special(c, apostrophe) {
      assert s[0] == c && c != '&';
    } else if c == '<' {
      assert s[..4] == "&lt;";
      assert !StartsWith(s, "&amp;") by { assert s[1] == 'l'; }
    } else if c == '>' {
      assert s[..4] == "&gt;";
      assert !StartsWith(s, "&amp;") && !StartsWith(s, "&lt;") by { assert s[1] == 'g'; }
    } else if c == '"' {
      assert !StartsWith(s, "&amp;") && !StartsWith(s, "&lt;") && !StartsWith(s, "&gt;") by { assert s[1] == 'q'; }
    } else if c == '\'' {
      assert s[1] == '#';
    }
  }

  lemma UnescapeEntity(c: char, apostrophe: bool, rest: string)
    ensures Unescape(Entity(c, apostrophe) + rest) == [c] + Unescape(rest)
  {
    var e := Entity(c, apostrophe);
    var s := e + rest;
    ReferenceOfEntity(c, apostrophe, rest);
    assert s[|e|..] == rest;
    if !Special(c, apostrophe) {
      assert s[0] == c && s[1..] == rest;
    }
  }

  /** Unescaping undoes escaping, with or without the apostrophe. */
  lemma {:induction false} UnescapeEscape(s: string, apostrophe: bool)
    ensures Unescape(Escape(s, apostrophe)) == s
    decreases |s|
  {
    if |s| > 0 {
      assert Escape(s, apostrophe) == Entity(s[0], apostrophe) + Escape(s[1..], apostrophe);
      UnescapeEntity(s[0], apostrophe, Escape(s[1..], apostrophe));
      UnescapeEscape(s[1..], apostrophe);
      assert [s[0]] + s[1..] == s;
    }
  }

  /**
   * No special character survives escaping except as the "&" that opens a
   * character reference: no raw "<", ">" or '"' (nor "'" when it is escaped).
   */
  lemma {:induction false} EscapeNoRaw(s: string, apostrophe: bool)
    ensures forall i :: 0 <= i < |Escape(s, apostrophe)| ==>
              var ch := Escape(s, apostrophe)[i];
              ch != '<' && ch != '>' && ch != '"' && (apostrophe ==> ch != '\'')
    decreases |s|
  {
    if |s| > 0 {
      EscapeNoRaw(s[1..], apostrophe);
      var e := Entity(s[0], apostrophe);
      var t := Escape(s, apostrophe);
      forall i | 0 <= i < |t|
        ensures t[i] != '<' && t[i] != '>' && t[i] != '"' && (apostrophe ==> t[i] != '\'')
      {
        if i >= |e| {
          assert t[i] == Escape(s[1..], apostrophe)[i - |e|];
        }
      }
    }
  }

  /** Text without special characters is left as it is. */
  lemma {:induction false} EscapePlain(s: string, apostrophe: bool)
    requires forall i :: 0 <= i < |s| ==> !Special(s[i], apostrophe)
    ensures Escape(s, apostrophe) == s
    decreases |s|
  {
    if |s| > 0 {
      EscapePlain(s[1..], apostrophe);
    }
  }

  /** `s.replace(/c/g, rep)`: every occurrence of the character `c` replaced by `rep`. */
  function ReplaceAll(s: string, c: char, rep: string): string
    decreases |s|
  {
    if |s| == 0 then "" else (if s[0] == c then rep else [s[0]]) + ReplaceAll(s[1..], c, rep)
  }

  lemma {:induction false} ReplaceAllConcat(a: string, b: string, c: char, rep: string)
    ensures ReplaceAll(a + b, c, rep) == ReplaceAll(a, c, rep) + ReplaceAll(b, c, rep)
    decreases |a|
  {
    if |a| == 0 {
      assert a + b == b;
    } else {
      assert (a + b)[1..] == a[1..] + b;
      ReplaceAllConcat(a[1..], b, c, rep);
    }
  }

  /** Replacing a character that does not occur changes nothing. */
  lemma {:induction false} ReplaceAllAbsent(s: string, c: char, rep: string)
    requires c !in s
    ensures ReplaceAll(s, c, rep) == s
    decreases |s|
  {
    if |s| > 0 {
      ReplaceAllAbsent(s[1..], c, rep);
    }
  }

  lemma ReplaceAllSingle(ch: char, c: char, rep: string)
    ensures ReplaceAll([ch], c, rep) == if ch == c then rep else [ch]
  {
    assert [ch][1..] == "";
  }
}
