/** The rewriting of JavaScript patterns for PCRE2: `[^]` becomes `[\s\S]` and `[]` becomes
    `(?!)`, found by a scan that steps over escapes and character classes. */
module RegexEscape {
  import opened Text

  /** A piece of a pattern: any character, a match that never succeeds, or text that stands
      for itself. */
  datatype Token = Any | Nothing | Raw(text: string)

  const ANY: string := "[^]"
  const NOTHING: string := "[]"

  function Rewritten(t: Token): string {
    match t
    case Any => "[\\s\\S]"
    case Nothing => "(?!)"
    case Raw(text) => text
  }

  // The scan of the library

  /** The index just after the first `]`, or the length. Inside a class the scan does not look
      at backslashes. */
  function FirstBracket(s: string): (k: nat)
    ensures k <= |s| && (s != "" ==> k > 0)
  {
    if s == "" then 0 else if s[0] == ']' then 1 else 1 + FirstBracket(s[1..])
  }

  /** The first token of a non-empty pattern and its length. */
  function First(s: string): (r: (Token, nat))
    requires s != ""
    ensures 0 < r.1 <= |s|
  {
    if s[0] == '\\' then
      var n := if |s| > 1 then 2 else 1;
      (Raw(s[..n]), n)
    else if s[0] != '[' then (Raw(s[..1]), 1)
    else if NOTHING <= s then (Nothing, 2)
    else if ANY <= s then (Any, 3)
    else
      var n := 1 + FirstBracket(s[1..]);
      (Raw(s[..n]), n)
  }

  function Rewrite(s: string): string {
    if s == "" then "" else Rewritten(First(s).0) + Rewrite(s[First(s).1..])
  }

  /** What the scan makes of `s` when it is inside a class. */
  function RewriteInClass(s: string): string {
    s[..FirstBracket(s)] + Rewrite(s[FirstBracket(s)..])
  }

  function CountOf(s: string, t: Token): nat {
    if s == "" then 0 else (if First(s).0 == t then 1 else 0) + CountOf(s[First(s).1..], t)
  }

  /** The length the counting pass announces is the length of the rewritten pattern. */
  lemma {:induction false} AnnouncedLength(s: string)
    ensures |Rewrite(s)| == |s| + 3 * CountOf(s, Any) + 2 * CountOf(s, Nothing)
  {
    if s != "" {
      AnnouncedLength(s[First(s).1..]);
    }
  }

  lemma {:induction false} NothingToRewrite(s: string)
    requires CountOf(s, Any) == 0 && CountOf(s, Nothing) == 0
    ensures Rewrite(s) == s
  {
    if s != "" {
      NothingToRewrite(s[First(s).1..]);
      assert s == s[..First(s).1] + s[First(s).1..];
    }
  }

  // The two passes

  /** The text from a cursor that may have run past the end. */
  function From(s: string, p: nat): string { if p < |s| then s[p..] else "" }

  /** Reads the token at a cursor off the bytes there. */
  lemma {:induction false} TokenAt(s: string, p: nat)
    requires p < |s|
    ensures var (t, n) := First(s[p..]);
            && p + n <= |s|
            && (s[p] != '[' ==> t == Raw(s[p..p + n]) && n == if s[p] == '\\' && p + 1 < |s| then 2 else 1)
            && (s[p] == '[' ==>
                  if p + 1 < |s| && s[p + 1] == ']' then (t, n) == (Nothing, 2)
                  else if p + 2 < |s| && s[p + 1] == '^' && s[p + 2] == ']' then (t, n) == (Any, 3)
                  else t == Raw(s[p..p + n]) && n == 1 + FirstBracket(s[p + 1..]))
  {
    var u := s[p..];
    assert u[1..] == s[p + 1..];
    assert forall k | p <= k <= |s| :: s[p..k] == u[..k - p];
  }

  lemma {:induction false} CountAt(s: string, p: nat, t: Token)
    requires p < |s|
    ensures CountOf(From(s, p), t)
         == (if First(s[p..]).0 == t then 1 else 0) + CountOf(From(s, p + First(s[p..]).1), t)
  {
    hide First;
    assert s[p..][First(s[p..]).1..] == s[p + First(s[p..]).1..];
  }

  lemma {:induction false} RewriteAt(s: string, p: nat)
    requires p < |s|
    ensures Rewrite(From(s, p)) == Rewritten(First(s[p..]).0) + Rewrite(From(s, p + First(s[p..]).1))
  {
    hide First, Rewritten;
    assert s[p..][First(s[p..]).1..] == s[p + First(s[p..]).1..];
  }

  lemma {:induction false} NothingAfterTheEnd()
    ensures CountOf("", Any) == CountOf("", Nothing) == 0 && Rewrite("") == ""
  {}

  method CountPass(s: string) returns (anychars: nat, nomatches: nat)
    ensures anychars == CountOf(s, Any) && nomatches == CountOf(s, Nothing)
  {
    hide First, CountOf, FirstBracket;
    anychars, nomatches := 0, 0;
    var p := 0;
    assert s[0..] == s;
    NothingAfterTheEnd();
    while p < |s|
      invariant CountOf(s, Any) == anychars + CountOf(From(s, p), Any)
      invariant CountOf(s, Nothing) == nomatches + CountOf(From(s, p), Nothing)
      decreases |s| - p
    {
      TokenAt(s, p);
      CountAt(s, p, Any);
      CountAt(s, p, Nothing);
      if s[p] == '\\' {
        p := p + 1;
      } else if s[p] == '[' {
        if p + 1 < |s| && s[p + 1] == ']' {
          p := p + 1;
          nomatches := nomatches + 1;
        } else if p + 2 < |s| && s[p + 1] == '^' && s[p + 2] == ']' {
          p := p + 2;
          anychars := anychars + 1;
        } else {
          p := SkipClass(s, p);
        }
      }
      p := p + 1;
    }
  }

  /** Stops at the first `]`, or at the end. */
  method SkipClass(s: string, start: nat) returns (p: nat)
    requires start < |s| && s[start] == '['
    ensures start <= p <= |s|
    ensures start + 1 + FirstBracket(s[start + 1..]) == if p < |s| then p + 1 else p
  {
    p := start;
    assert s[p..][1..] == s[p + 1..];
    while p < |s| && s[p] != ']'
      invariant start <= p <= |s|
      invariant start + 1 + FirstBracket(s[start + 1..]) == p + FirstBracket(s[p..])
    {
      assert s[p..][1..] == s[p + 1..];
      p := p + 1;
    }
  }

  // The writing pass

  /** Copies a class through its closing `]`, or to the end; the cursor stops on the `]`. */
  method CopyClass(s: string, start: nat, buf: array<char>, from: nat) returns (p: nat, dst: nat)
    requires start < |s| && s[start] == '['
    requires from + 1 + FirstBracket(s[start + 1..]) <= buf.Length
    modifies buf
    ensures start < p <= |s|
    ensures start + 1 + FirstBracket(s[start + 1..]) == if p < |s| then p + 1 else p
    ensures dst == from + 1 + FirstBracket(s[start + 1..])
    ensures buf[..dst] == old(buf[..from]) + s[start..start + 1 + FirstBracket(s[start + 1..])]
  {
    hide FirstBracket;
    ghost var n := start + 1 + FirstBracket(s[start + 1..]);
    dst := Put(buf, from, [s[start]]);
    p := start + 1;
    assert [s[start]] == s[start..p];
    while p < |s| && s[p] != ']'
      invariant start < p <= |s| && dst == from + p - start
      invariant n == p + FirstBracket(s[p..])
      invariant buf[..dst] == old(buf[..from]) + s[start..p]
    {
      BracketStep(s, p);
      dst := Put(buf, dst, [s[p]]);
      assert s[start..p] + [s[p]] == s[start..p + 1];
      p := p + 1;
    }
    BracketStep(s, p);
    if p < |s| {
      dst := Put(buf, dst, [s[p]]);
      assert s[start..p] + [s[p]] == s[start..p + 1];
    }
  }

  lemma {:induction false} BracketStep(s: string, p: nat)
    requires p <= |s|
    ensures FirstBracket(s[p..])
         == if p == |s| then 0 else if s[p] == ']' then 1 else 1 + FirstBracket(s[p + 1..])
  {
    assert p < |s| ==> s[p..][1..] == s[p + 1..];
  }

  /** One turn of the writing loop: writes what the token at the cursor becomes. */
  method WriteToken(s: string, at: nat, buf: array<char>, from: nat) returns (p: nat, dst: nat)
    requires at < |s|
    requires from + |Rewritten(First(s[at..]).0)| <= buf.Length
    modifies buf
    ensures dst == from + |Rewritten(First(s[at..]).0)|
    ensures buf[..dst] == old(buf[..from]) + Rewritten(First(s[at..]).0)
    ensures p > at && From(s, p) == From(s, at + First(s[at..]).1)
  {
    hide First, FirstBracket;
    TokenAt(s, at);
    p := at;
    if s[p] == '\\' {
      if p + 1 < |s| {
        dst := Put(buf, from, s[p..p + 2]);
        p := p + 1;
      } else {
        dst := Put(buf, from, s[p..p + 1]);
      }
    } else if s[p] != '[' {
      dst := Put(buf, from, s[p..p + 1]);
    } else if p + 1 < |s| && s[p + 1] == ']' {
      p := p + 1;
      dst := Put(buf, from, "(?!)");
    } else if p + 2 < |s| && s[p + 1] == '^' && s[p + 2] == ']' {
      p := p + 2;
      dst := Put(buf, from, "[\\s\\S]");
    } else {
      p, dst := CopyClass(s, p, buf, from);
    }
    p := p + 1;
  }

  /** Fills a buffer of the announced length, to its last place. */
  method WritePass(s: string, buf: array<char>)
    requires buf.Length == |s| + 3 * CountOf(s, Any) + 2 * CountOf(s, Nothing)
    modifies buf
    ensures buf[..] == Rewrite(s)
  {
    hide First, Rewrite, Rewritten, FirstBracket;
    AnnouncedLength(s);
    var p: nat, dst: nat := 0, 0;
    assert s[0..] == s;
    NothingAfterTheEnd();
    while p < |s|
      invariant dst <= buf.Length
      invariant buf[..dst] + Rewrite(From(s, p)) == Rewrite(s)
      decreases |s| - p
    {
      RewriteAt(s, p);
      ghost var (token, n) := First(s[p..]);
      Room(buf[..dst], Rewritten(token), Rewrite(From(s, p + n)), Rewrite(s));
      p, dst := WriteToken(s, p, buf, dst);
    }
    assert buf[..dst] == Rewrite(s);
    assert dst == buf.Length;
  }

  lemma {:induction false} Room(was: string, token: string, rest: string, whole: string)
    requires was + (token + rest) == whole
    ensures |was| + |token| <= |whole|
    ensures (was + token) + rest == whole
  {
  }

  /** The whole rewriting: the pattern itself is kept when there is nothing to rewrite. */
  method EscapePattern(s: string) returns (out: string)
    ensures out == Rewrite(s)
  {
    var anychars, nomatches := CountPass(s);
    if anychars == 0 && nomatches == 0 {
      NothingToRewrite(s);
      return s;
    }
    var buf := new char[|s| + 3 * anychars + 2 * nomatches];
    WritePass(s, buf);
    out := buf[..];
  }
}
