/** Escaping of XML text in two passes, and its inverse. */
module XmlEscape {
  import opened Text


  function EscapedChar(c: char): string {
    if c == '<' then "&lt;"
    else if c == '>' then "&gt;"
    else if c == '&' then "&amp;"
    else if c == '"' then "&quot;"
    else if c == '\r' then "&#13;"
    else [c]
  }

  function Escaped(s: string): (r: string)
    ensures |r| >= |s|
  {
    if s == "" then "" else EscapedChar(s[0]) + Escaped(s[1..])
  }

  lemma {:induction false} EscapedUnchanged(s: string)
    ensures |Escaped(s)| == |s| ==> Escaped(s) == s
  {
    if s != "" {
      EscapedUnchanged(s[1..]);
      assert s == [s[0]] + s[1..];
    }
  }

  /** The first pass: how long the escaped text will be. */
  method EscapedLength(s: string) returns (len: nat)
    ensures len == |Escaped(s)|
  {
    len := 0;
    var p := 0;
    assert s[0..] == s;
    while p < |s|
      invariant p <= |s|
      invariant len + |Escaped(s[p..])| == |Escaped(s)|
    {
      assert s[p..][1..] == s[p + 1..];
      if s[p] == '<' || s[p] == '>' {
        len := len + |"&lt"|;
      }
      if s[p] == '&' || s[p] == '\r' {
        len := len + |"&amp"|;
      }
      if s[p] == '"' {
        len := len + |"&quot"|;
      }
      len := len + 1;
      p := p + 1;
    }
  }

  /** The second pass fills the buffer of that length exactly; text without special
      characters is returned as it is. */
  method EncodeSpecialChars(src: string) returns (out: string)
    ensures out == Escaped(src)
  {
    var len := EscapedLength(src);
    if len == |src| {
      EscapedUnchanged(src);
      return src;
    }
    hide EscapedChar, Escaped;
    var dst := new char[len](_ => '\0');
    var p: nat, d: nat := 0, 0;
    assert src[0..] == src && dst[..0] == "";
    NothingToEscape();
    while p < |src|
      invariant p <= |src| && d <= len
      invariant Escaped(src) == dst[..d] + Escaped(src[p..])
    {
      ghost var before := dst[..d];
      EscapedAt(src, p);
      ghost var t, rest := EscapedChar(src[p]), Escaped(src[p + 1..]);
      assert before + (t + rest) == (before + t) + rest;
      d := PutEscaped(dst, d, src[p]);
      p := p + 1;
    }
    assert src[p..] == "" && dst[..d] + "" == dst[..d];
    out := dst[..];
  }

  lemma NothingToEscape()
    ensures Escaped("") == ""
  {
  }

  method PutEscaped(dst: array<char>, d: nat, c: char) returns (next: nat)
    requires d + |EscapedChar(c)| <= dst.Length
    modifies dst
    ensures next == d + |EscapedChar(c)| && dst[..next] == old(dst[..d]) + EscapedChar(c)
  {
    if c == '<' {
      next := Put(dst, d, "&lt;");
    } else if c == '>' {
      next := Put(dst, d, "&gt;");
    } else if c == '&' {
      next := Put(dst, d, "&amp;");
    } else if c == '"' {
      next := Put(dst, d, "&quot;");
    } else if c == '\r' {
      next := Put(dst, d, "&#13;");
    } else {
      next := Put(dst, d, [c]);
    }
  }

  lemma {:induction false} EscapedAt(s: string, p: nat)
    requires p < |s|
    ensures Escaped(s[p..]) == EscapedChar(s[p]) + Escaped(s[p + 1..])
  {
    hide EscapedChar;
    assert s[p..][1..] == s[p + 1..];
  }

  // Reading it back

  /** The reference that starts `s`: its character and its length. */
  function Reference(s: string): (char, nat)
    requires |s| > 0
  {
    if "&lt;" <= s then ('<', 4)
    else if "&gt;" <= s then ('>', 4)
    else if "&amp;" <= s then ('&', 5)
    else if "&quot;" <= s then ('"', 6)
    else if "&#13;" <= s then ('\r', 5)
    else (s[0], 1)
  }

  function Unescaped(s: string): string {
    if s == "" then "" else [Reference(s).0] + Unescaped(s[Reference(s).1..])
  }

  lemma ReferenceOfEscaped(c: char, rest: string)
    ensures var t := EscapedChar(c);
            Reference(t + rest) == (c, |t|) && (t + rest)[|t|..] == rest
  {
    var s := EscapedChar(c) + rest;
    if c == '<' {
      assert s[..4] == "&lt;";
    } else if c == '>' {
      assert s[1] == 'g' && s[..4] == "&gt;";
    } else if c == '&' {
      assert s[1] == 'a' && s[..5] == "&amp;";
    } else if c == '"' {
      assert s[1] == 'q' && s[..6] == "&quot;";
    } else if c == '\r' {
      assert s[1] == '#' && s[..5] == "&#13;";
    } else {
      assert s[0] == c;
    }
  }

  /** Escaped text reads back as the original. */
  lemma {:induction false} UnescapeEscape(s: string)
    ensures Unescaped(Escaped(s)) == s
  {
    hide EscapedChar, Reference;
    if s != "" {
      UnescapeEscape(s[1..]);
      ReferenceOfEscaped(s[0], Escaped(s[1..]));
      assert s == [s[0]] + s[1..];
    }
  }

  /** Nothing that could be taken for markup is left. */
  lemma {:induction false} EscapedIsPlain(s: string)
    ensures forall i :: 0 <= i < |Escaped(s)| ==> Escaped(s)[i] !in ['<', '>', '"', '\r']
  {
    if s != "" {
      EscapedIsPlain(s[1..]);
      EscapedCharIsPlain(s[0]);
    }
  }

  lemma EscapedCharIsPlain(c: char)
    ensures forall i :: 0 <= i < |EscapedChar(c)| ==> EscapedChar(c)[i] !in ['<', '>', '"', '\r']
  {
  }
}
