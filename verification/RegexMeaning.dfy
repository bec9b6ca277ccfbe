/** What the rewriting of patterns does to their meaning. A pattern is read as a sequence of
    tokens, once with the rules of JavaScript and once with those of PCRE2; the rewritten
    pattern should read in PCRE2 as the original reads in JavaScript. */
module RegexMeaning {
  import opened RegexEscape

  // Rewriting twice

  /** Rewriting a rewritten pattern changes nothing. */
  lemma {:induction false} RewriteIsIdempotent(s: string)
    ensures Rewrite(Rewrite(s)) == Rewrite(s)
  {
    if s != "" {
      hide First, Rewritten;
      RewriteIsIdempotent(s[First(s).1..]);
      TokenIsKept(s, Rewrite(s[First(s).1..]));
    }
  }

  /** A rewritten token is again one or more tokens that stay as they are; only the last token
      of a pattern may be cut short. */
  lemma {:induction false} TokenIsKept(s: string, v: string)
    requires s != "" && (First(s).1 == |s| ==> v == "")
    ensures Rewrite(Rewritten(First(s).0) + v) == Rewritten(First(s).0) + Rewrite(v)
  {
    hide Rewrite, FirstBracket;
    var (t, n) := First(s);
    match t
    case Nothing =>
      PlainIsKept("(?!)", v);
    case Any =>
      AnyIsKept(v);
    case Raw(text) =>
      if n == |s| {
        assert text + v == s == text;
        RawIsKept(text, "");
      } else if s[0] == '[' {
        BracketIsLast(s[1..]);
        assert s[1..][..n - 1] == s[1..n];
        assert text == "[" + s[1..n];
        assert |s| > 2 && s[1] == s[1..n][0];
        assert n > 2 ==> s[2] == s[1..n][1];
        ClassIsKept(s[1..n], v);
      } else {
        RawIsKept(text, v);
      }
  }

  lemma {:induction false} AnyIsKept(v: string)
    ensures Rewrite(Rewritten(Any) + v) == Rewritten(Any) + Rewrite(v)
  {
    hide Rewrite;
    var b := "\\s\\S]";
    assert FirstBracket(b) == 5 by {
      assert b[1..] == "s\\S]" && b[1..][1..] == "\\S]";
      assert b[1..][1..][1..] == "S]" && b[1..][1..][1..][1..] == "]";
    }
    assert "[" + b == Rewritten(Any);
    ClassIsKept(b, v);
  }

  /** A class that is closed and not empty stays as it is. */
  lemma {:induction false} ClassIsKept(b: string, v: string)
    requires b != "" && b[|b| - 1] == ']' && FirstBracket(b) == |b|
    requires b != "]" && b != "^]"
    ensures Rewrite(("[" + b) + v) == ("[" + b) + Rewrite(v)
  {
    hide Rewrite;
    var w := "[" + b;
    assert (w + v)[1..] == b + v;
    BracketStops(b, v);
    assert b[0] != ']';
    assert b[0] == '^' ==> |b| > 2 && b[1] != ']' by {
      assert |b| > 1 ==> b[1..][0] == b[1];
    }
    assert (w + v)[1] == b[0] && (|b| > 1 ==> (w + v)[2] == b[1]);
    assert (w + v)[..|w|] == w;
    RawIsKept(w, v);
  }

  lemma {:induction false} PlainIsKept(w: string, v: string)
    requires forall k :: 0 <= k < |w| ==> w[k] != '\\' && w[k] != '['
    ensures Rewrite(w + v) == w + Rewrite(v)
  {
    hide Rewrite;
    if w == "" {
      assert w + v == v;
    } else {
      PlainIsKept(w[1..], v);
      PlainCharacter(w[0], w[1..] + v);
      assert [w[0]] + (w[1..] + v) == w + v;
      assert [w[0]] + (w[1..] + Rewrite(v)) == w + Rewrite(v);
    }
  }

  lemma {:induction false} PlainCharacter(c: char, v: string)
    requires c != '\\' && c != '['
    ensures Rewrite([c] + v) == [c] + Rewrite(v)
  {
    hide Rewrite, FirstBracket;
    RawIsKept([c], v);
  }

  lemma {:induction false} RawIsKept(w: string, v: string)
    requires w != "" && First(w + v) == (Raw(w), |w|)
    ensures Rewrite(w + v) == w + Rewrite(v)
  {
    hide First;
    assert (w + v)[|w|..] == v;
  }

  lemma {:induction false} BracketStops(u: string, v: string)
    requires u != "" && u[|u| - 1] == ']' && FirstBracket(u) == |u|
    ensures FirstBracket(u + v) == |u|
  {
    if u[0] != ']' {
      assert (u + v)[1..] == u[1..] + v;
      BracketStops(u[1..], v);
    }
  }

  lemma {:induction false} BracketIsLast(u: string)
    requires FirstBracket(u) < |u|
    ensures var w := u[..FirstBracket(u)];
            w != "" && w[|w| - 1] == ']' && FirstBracket(w) == |w|
  {
    if u[0] != ']' {
      BracketIsLast(u[1..]);
      assert u[..FirstBracket(u)][1..] == u[1..][..FirstBracket(u[1..])];
    }
  }

  // Reading a pattern

  datatype Dialect = JavaScript | Pcre

  /** The index just after the first `]` that is not escaped, or the length. */
  function ClassEnd(u: string): (k: nat)
    ensures k <= |u|
  {
    if u == "" then 0
    else if u[0] == ']' then 1
    else if u[0] == '\\' then if |u| == 1 then 1 else 2 + ClassEnd(u[2..])
    else 1 + ClassEnd(u[1..])
  }

  /** How much of a class is read before its end is looked for: PCRE2 takes a `]` that comes
      first for a member of the class. */
  function ClassStart(d: Dialect, s: string): nat {
    if d == Pcre && ANY <= s then 3 else if d == Pcre && NOTHING <= s then 2 else 1
  }

  /** The first token in a dialect. `(?!)` and `[\s\S]` mean the same in both; the empty
      classes exist in JavaScript only. */
  function FirstIn(d: Dialect, s: string): (r: (Token, nat))
    requires s != ""
    ensures 0 < r.1 <= |s|
  {
    if s[0] == '\\' then
      var n := if |s| > 1 then 2 else 1;
      (Raw(s[..n]), n)
    else if "(?!)" <= s then (Nothing, 4)
    else if s[0] != '[' then (Raw(s[..1]), 1)
    else if d == JavaScript && NOTHING <= s then (Nothing, 2)
    else if d == JavaScript && ANY <= s then (Any, 3)
    else if "[\\s\\S]" <= s then (Any, 6)
    else
      var n := ClassStart(d, s);
      var m := n + ClassEnd(s[n..]);
      (Raw(s[..m]), m)
  }

  /** The token-level meaning of a pattern. */
  function Meaning(d: Dialect, s: string): seq<Token> {
    if s == "" then [] else [FirstIn(d, s).0] + Meaning(d, s[FirstIn(d, s).1..])
  }

  /** A way to write a meaning down for PCRE2. */
  function Render(ts: seq<Token>): string {
    if ts == [] then "" else Rewritten(ts[0]) + Render(ts[1..])
  }

  lemma {:induction false} RenderMeaning(d: Dialect, s: string)
    requires s != ""
    ensures Render(Meaning(d, s)) == Rewritten(FirstIn(d, s).0) + Render(Meaning(d, s[FirstIn(d, s).1..]))
  {
    hide FirstIn, Rewritten;
    assert Meaning(d, s)[1..] == Meaning(d, s[FirstIn(d, s).1..]);
  }

  /** No two patterns read alike in PCRE2: the text can be recovered from the tokens. */
  lemma {:induction false} PcreLosesNothing(s: string)
    ensures Render(Meaning(Pcre, s)) == s
  {
    hide *;
    if s == "" {
      NothingToRead();
    } else {
      var n := FirstIn(Pcre, s).1;
      RenderMeaning(Pcre, s);
      PcreLosesNothing(s[n..]);
      PcreToken(s);
      assert s == s[..n] + s[n..];
    }
  }

  lemma {:induction false} NothingToRead()
    ensures forall d :: Meaning(d, "") == []
    ensures Render([]) == ""
  {
  }

  lemma {:induction false} PcreToken(s: string)
    requires s != ""
    ensures Rewritten(FirstIn(Pcre, s).0) == s[..FirstIn(Pcre, s).1]
  {
    hide ClassEnd;
  }

  // Writing a JavaScript meaning for PCRE2

  function Ideal(s: string): string { Render(Meaning(JavaScript, s)) }

  /** A correct rewriting exists for every pattern. */
  lemma {:induction false} IdealKeepsMeaning(s: string)
    ensures Meaning(Pcre, Ideal(s)) == Meaning(JavaScript, s)
  {
    if s != "" {
      hide FirstIn, Render, Rewritten;
      var (t, n) := FirstIn(JavaScript, s);
      var v := Ideal(s[n..]);
      RenderMeaning(JavaScript, s);
      IdealKeepsMeaning(s[n..]);
      TokenReadsBack(s);
      assert (Rewritten(t) + v)[|Rewritten(t)|..] == v;
    }
  }

  lemma {:induction false} TokenReadsBack(s: string)
    requires s != ""
    ensures var (t, n) := FirstIn(JavaScript, s);
            var w := Rewritten(t) + Ideal(s[n..]);
            w != "" && FirstIn(Pcre, w) == (t, |Rewritten(t)|)
  {
    hide Render, Meaning, ClassEnd;
    var (t, n) := FirstIn(JavaScript, s);
    var v := Ideal(s[n..]);
    if t.Raw? {
      assert t.text == s[..n];
      if n == |s| {
        EmptyIdeal();
        assert s[n..] == "" && s[..n] + v == s;
      } else if s[0] == '[' {
        ClassReadsBack(s, v);
      } else if s[0] == '(' {
        NoGroupAppears(s);
      }
    }
  }

  lemma {:induction false} EmptyIdeal()
    ensures Ideal("") == ""
  {}

  /** The class keeps its end whatever follows. */
  lemma {:induction false} EndStays(u: string, v: string)
    requires ClassEnd(u) < |u|
    ensures ClassEnd(u[..ClassEnd(u)] + v) == ClassEnd(u)
  {
    var n := ClassEnd(u);
    var w := u[..n] + v;
    if u[0] == ']' {
    } else if u[0] == '\\' {
      EndStays(u[2..], v);
      assert w[2..] == u[2..][..n - 2] + v;
    } else {
      EndStays(u[1..], v);
      assert w[1..] == u[1..][..n - 1] + v;
    }
  }

  lemma {:induction false} ClassReadsBack(s: string, v: string)
    requires s != "" && s[0] == '[' && FirstIn(JavaScript, s).0.Raw?
    requires FirstIn(JavaScript, s).1 < |s|
    ensures var w := s[..FirstIn(JavaScript, s).1];
            FirstIn(Pcre, w + v) == (Raw(w), |w|)
  {
    hide ClassEnd;
    var n := FirstIn(JavaScript, s).1;
    var w := s[..n];
    EndStays(s[1..], v);
    assert (w + v)[1..] == s[1..][..n - 1] + v;
    NoSpecialClass(w + v);
    assert !(NOTHING <= w + v) && !(ANY <= w + v) && !(Rewritten(Any) <= w + v) by {
      assert forall k | 0 <= k < n :: (w + v)[k] == s[k];
    }
    hide Rewritten;
    PcreClass(w + v, n);
    assert (w + v)[..n] == w;
  }

  lemma {:induction false} PcreClass(s: string, n: nat)
    requires s != "" && s[0] == '[' && !(NOTHING <= s) && !(ANY <= s) && !(Rewritten(Any) <= s)
    requires n == 1 + ClassEnd(s[1..])
    ensures FirstIn(Pcre, s) == (Raw(s[..n]), n)
  {
    hide ClassEnd;
  }

  /** The three special classes end where they end. */
  lemma {:induction false} NoSpecialClass(w: string)
    ensures NOTHING <= w ==> ClassEnd(w[1..]) == 1
    ensures ANY <= w ==> ClassEnd(w[1..]) == 2
    ensures Rewritten(Any) <= w ==> ClassEnd(w[1..]) == 5
  {
    if Rewritten(Any) <= w {
      var u := w[1..];
      assert u[0] == '\\' && u[2..][0] == '\\' && u[2..][2..][0] == ']';
      assert ClassEnd(u[2..][2..]) == 1;
      assert ClassEnd(u[2..]) == 3;
    }
  }

  /** Writing the tokens down never makes a `(?!)` out of a lone `(`. */
  lemma {:induction false} NoGroupAppears(s: string)
    requires s != "" && s[0] == '(' && !(Rewritten(Nothing) <= s)
    ensures !(Rewritten(Nothing) <= "(" + Ideal(s[1..]))
  {
    hide Render, Meaning;
    var a := s[1..];
    var w := "(" + Ideal(a);
    if Rewritten(Nothing) <= w {
      assert w[1] == '?' && w[2] == '!' && w[3] == ')';
      assert forall k | 0 <= k < |Ideal(a)| :: w[k + 1] == Ideal(a)[k];
      PlainHead(a, '?');
      PlainHead(a[1..], '!');
      PlainHead(a[1..][1..], ')');
    }
  }

  lemma {:induction false} PlainHead(s: string, c: char)
    requires c != '\\' && c != '[' && c != '('
    requires Ideal(s) != "" && Ideal(s)[0] == c
    ensures s != "" && s[0] == c && Ideal(s) == [c] + Ideal(s[1..])
  {
    hide *;
    if s == "" {
      EmptyIdeal();
    } else {
      IdealStep(s);
      HeadOfToken(s);
    }
  }

  lemma {:induction false} IdealStep(s: string)
    requires s != ""
    ensures var (t, n) := FirstIn(JavaScript, s);
            Ideal(s) == Rewritten(t) + Ideal(s[n..])
  {
    hide FirstIn, Rewritten;
    RenderMeaning(JavaScript, s);
  }

  /** A written token starts with a backslash, a bracket or a parenthesis, or is one byte. */
  lemma {:induction false} HeadOfToken(s: string)
    requires s != ""
    ensures var (t, n) := FirstIn(JavaScript, s);
            && Rewritten(t) != ""
            && (|| Rewritten(t)[0] == '\\' || Rewritten(t)[0] == '[' || Rewritten(t)[0] == '('
                || (n == 1 && Rewritten(t) == [s[0]]))
  {
    hide ClassEnd;
  }

  // Where the library's rewriting goes wrong

  /** Whether the scan, reading the inside of a class, meets an empty class in it. It believes
      itself outside a class (`outside`) after an escaped `]`, and inside again after a `[`. */
  predicate Exposed(u: string, outside: bool)
    decreases |u|
  {
    if u == "" || u[0] == ']' then false
    else if u[0] == '\\' then |u| > 1 && Exposed(u[2..], outside || u[1] == ']')
    else if outside && u[0] == '[' then NOTHING <= u || ANY <= u || Exposed(u[1..], false)
    else Exposed(u[1..], outside)
  }

  predicate IsClass(s: string) {
    s != "" && s[0] == '[' && FirstIn(JavaScript, s).0.Raw?
  }

  predicate SomeClassExposed(s: string) {
    s != "" && ((IsClass(s) && Exposed(s[1..], false)) || SomeClassExposed(s[FirstIn(JavaScript, s).1..]))
  }

  /** What the scan makes of text that starts inside a JavaScript class. */
  function Scanned(u: string, outside: bool): string {
    if outside then Rewrite(u) else RewriteInClass(u)
  }

  lemma {:induction false} InClassStep(u: string)
    requires u != ""
    ensures RewriteInClass(u) == [u[0]] + (if u[0] == ']' then Rewrite(u[1..]) else RewriteInClass(u[1..]))
  {
    hide Rewrite;
    if u[0] != ']' {
      Shift(u, 1, FirstBracket(u[1..]));
    }
  }

  lemma {:induction false} OutsideStep(u: string)
    requires u != "" && u[0] != '\\' && !(NOTHING <= u) && !(ANY <= u)
    ensures Rewrite(u) == [u[0]] + (if u[0] == '[' then RewriteInClass(u[1..]) else Rewrite(u[1..]))
  {
    hide FirstBracket, Rewrite, First, RewriteInClass;
    if u[0] == '[' {
      ClassOpens(u);
    } else {
      PlainCharacter(u[0], u[1..]);
      assert u == [u[0]] + u[1..];
    }
  }

  lemma {:induction false} ClassOpens(u: string)
    requires u != "" && u[0] == '[' && !(NOTHING <= u) && !(ANY <= u)
    ensures Rewrite(u) == [u[0]] + RewriteInClass(u[1..])
  {
    hide FirstBracket, Rewrite;
    var k := FirstBracket(u[1..]);
    RawStep(u, k + 1);
    Shift(u, 1, k);
    assert u[..1] == [u[0]];
  }

  lemma {:induction false} RawStep(u: string, n: nat)
    requires u != "" && n <= |u| && First(u) == (Raw(u[..n]), n)
    ensures Rewrite(u) == u[..n] + Rewrite(u[n..])
  {
    hide First;
  }

  /** An escape is copied; an escaped `]` ends what the scan takes for the class. */
  lemma {:induction false} EscapeStep(u: string, outside: bool)
    requires |u| > 1 && u[0] == '\\'
    ensures Scanned(u, outside) == u[..2] + Scanned(u[2..], outside || u[1] == ']')
  {
    hide Rewrite, RewriteInClass, FirstBracket;
    if !outside {
      assert u[1..][1..] == u[2..];
      InClassStep(u);
      InClassStep(u[1..]);
      assert [u[0]] + [u[1]] == u[..2];
    } else {
      RawStep(u, 2);
    }
  }

  lemma {:induction false} PlainStep(u: string, outside: bool)
    requires u != "" && u[0] != '\\' && u[0] != ']'
    requires !outside || !(NOTHING <= u || ANY <= u)
    ensures Scanned(u, outside) == u[..1] + Scanned(u[1..], outside && u[0] != '[')
  {
    hide Rewrite, RewriteInClass;
    if outside {
      OutsideStep(u);
    } else {
      InClassStep(u);
    }
  }

  lemma {:induction false} LastStep(u: string, outside: bool)
    requires u == "" || u == "\\" || u[0] == ']'
    ensures Scanned(u, outside) == u[..ClassEnd(u)] + Rewrite(u[ClassEnd(u)..])
  {
    if u != "" && u[0] == ']' {
      InClassStep(u);
      OutsideStep(u);
    } else if u != "" {
      InClassStep(u);
      assert u[1..] == "";
    }
  }

  lemma {:induction false} EmptyClassGrows(u: string)
    requires NOTHING <= u || ANY <= u
    ensures |Rewrite(u)| > ClassEnd(u) + |Rewrite(u[ClassEnd(u)..])|
  {
    var n := if NOTHING <= u then 1 else 2;
    NoSpecialClass(u);
    assert ClassEnd(u) == 1 + n;
    assert First(u).1 == 1 + n;
  }

  lemma {:induction false} Shift(u: string, n: nat, k: nat)
    requires n + k <= |u|
    ensures u[n..][k..] == u[n + k..] && u[..n] + u[n..][..k] == u[..n + k]
  {
  }

  ghost predicate CopiedIff(u: string, outside: bool) {
    if Exposed(u, outside) then |Scanned(u, outside)| > ClassEnd(u) + |Rewrite(u[ClassEnd(u)..])|
    else Scanned(u, outside) == u[..ClassEnd(u)] + Rewrite(u[ClassEnd(u)..])
  }

  lemma {:induction false} CopiedAfter(u: string, outside: bool, n: nat, next: bool)
    requires n <= |u| && ClassEnd(u) == n + ClassEnd(u[n..])
    requires Exposed(u, outside) == Exposed(u[n..], next)
    requires Scanned(u, outside) == u[..n] + Scanned(u[n..], next)
    requires CopiedIff(u[n..], next)
    ensures CopiedIff(u, outside)
  {
    hide ClassEnd, Exposed, Scanned, Rewrite;
    Shift(u, n, ClassEnd(u[n..]));
  }

  /** The inside of a class is copied exactly when it is not exposed, and grows otherwise. */
  lemma {:induction false} ClassIsCopiedIff(u: string, outside: bool)
    ensures CopiedIff(u, outside)
    decreases |u|
  {
    hide Rewrite, RewriteInClass;
    if u == "" || u == "\\" || u[0] == ']' {
      LastStep(u, outside);
    } else if outside && u[0] != '\\' && (NOTHING <= u || ANY <= u) {
      EmptyClassGrows(u);
    } else {
      hide Scanned, CopiedIff;
      if u[0] == '\\' {
        EscapeStep(u, outside);
        ClassIsCopiedIff(u[2..], outside || u[1] == ']');
        CopiedAfter(u, outside, 2, outside || u[1] == ']');
      } else {
        PlainStep(u, outside);
        ClassIsCopiedIff(u[1..], outside && u[0] != '[');
        CopiedAfter(u, outside, 1, outside && u[0] != '[');
      }
    }
  }

  /** The library writes the ideal text, or a longer one. */
  lemma {:induction false} RewriteIsIdealIff(s: string)
    ensures if SomeClassExposed(s) then |Rewrite(s)| > |Ideal(s)| else Rewrite(s) == Ideal(s)
  {
    hide Rewrite, Render, Meaning, Exposed, FirstIn, IsClass, Rewritten;
    if s == "" {
      EmptyIdeal();
      NothingAfterTheEnd();
    } else {
      RewriteIsIdealIff(s[FirstIn(JavaScript, s).1..]);
      RenderMeaning(JavaScript, s);
      if IsClass(s) {
        ClassToken(s);
      } else {
        OtherTokens(s);
      }
    }
  }

  lemma {:induction false} ClassToken(s: string)
    requires s != "" && IsClass(s)
    ensures var (t, n) := FirstIn(JavaScript, s);
            && Rewritten(t) == s[..n]
            && if Exposed(s[1..], false) then |Rewrite(s)| > n + |Rewrite(s[n..])|
               else Rewrite(s) == s[..n] + Rewrite(s[n..])
  {
    hide *;
    ClassStarts(s);
    ClassOpens(s);
    InsideIsCopiedIff(s[1..]);
    var k := ClassEnd(s[1..]);
    Shift(s, 1, k);
    assert s[..1] == [s[0]];
    if !Exposed(s[1..], false) {
      var rest := Rewrite(s[1 + k..]);
      assert s[..1] + (s[1..][..k] + rest) == (s[..1] + s[1..][..k]) + rest;
    }
  }

  lemma {:induction false} ClassStarts(s: string)
    requires IsClass(s)
    ensures s[0] == '[' && !(NOTHING <= s) && !(ANY <= s)
    ensures var n := 1 + ClassEnd(s[1..]);
            FirstIn(JavaScript, s) == (Raw(s[..n]), n) && Rewritten(Raw(s[..n])) == s[..n]
  {
    hide ClassEnd;
  }

  lemma {:induction false} InsideIsCopiedIff(u: string)
    ensures if Exposed(u, false) then |RewriteInClass(u)| > ClassEnd(u) + |Rewrite(u[ClassEnd(u)..])|
            else RewriteInClass(u) == u[..ClassEnd(u)] + Rewrite(u[ClassEnd(u)..])
  {
    hide Exposed, Rewrite, RewriteInClass, ClassEnd;
    ClassIsCopiedIff(u, false);
  }

  lemma {:induction false} OtherTokens(s: string)
    requires s != "" && !IsClass(s)
    ensures Rewrite(s) == Rewritten(FirstIn(JavaScript, s).0) + Rewrite(s[FirstIn(JavaScript, s).1..])
  {
    hide Rewrite, FirstBracket, ClassEnd;
    if Rewritten(Nothing) <= s {
      PlainIsKept("(?!)", s[4..]);
      assert s == "(?!)" + s[4..];
    } else if Rewritten(Any) <= s {
      assert s == "[\\s\\S]" + s[6..];
      assert s[0] == '[' && s[1] == '\\' && FirstIn(JavaScript, s) == (Any, 6);
      AnyIsKept(s[6..]);
    } else {
      assert First(s) == FirstIn(JavaScript, s);
      RewriteStep(s);
    }
  }

  lemma {:induction false} RewriteStep(s: string)
    requires s != ""
    ensures Rewrite(s) == Rewritten(First(s).0) + Rewrite(s[First(s).1..])
  {
    hide First, Rewritten;
  }

  /** The rewriting keeps the meaning of a pattern exactly when no class of it is exposed. */
  lemma {:induction false} MeaningKeptIff(s: string)
    ensures Meaning(Pcre, Rewrite(s)) == Meaning(JavaScript, s) <==> !SomeClassExposed(s)
  {
    hide Meaning, Render, Rewrite, SomeClassExposed;
    RewriteIsIdealIff(s);
    IdealKeepsMeaning(s);
    PcreLosesNothing(Rewrite(s));
  }

  /** In `[\][]`, the class of `]` and `[`, the scan stops at the escaped bracket and takes the
      last two characters for the empty class. */
  lemma {:induction false} EscapedBracketIsMisread()
    ensures Rewrite("[\\][]") == "[\\](?!)"
    ensures Meaning(Pcre, Rewrite("[\\][]")) != Meaning(JavaScript, "[\\][]")
  {
    hide *;
    MisreadText();
    MisreadClass();
    MeaningKeptIff("[\\][]");
  }

  lemma {:induction false} MisreadText()
    ensures Rewrite("[\\][]") == "[\\](?!)"
  {
    var s := "[\\][]";
    assert s[1..] == "\\][]" && s[1..][1..] == "][]";
    assert FirstBracket(s[1..]) == 2;
    assert s[..3] == "[\\]" && s[3..] == "[]";
    hide Rewrite, FirstBracket;
    RawStep(s, 3);
    RewriteStep("[]");
    NothingAfterTheEnd();
    assert "[]"[2..] == "";
  }

  lemma {:induction false} MisreadClass()
    ensures SomeClassExposed("[\\][]")
  {
    var s := "[\\][]";
    assert s[1..] == "\\][]" && s[1..][2..] == "[]";
    assert Exposed(s[1..], false);
    hide Exposed, ClassEnd;
    assert IsClass(s);
  }

  /** A pattern without an escaped `]` keeps its meaning. */
  lemma {:induction false} SafeWithoutEscapedBracket(s: string)
    requires forall k :: 0 <= k < |s| - 1 && s[k] == '\\' ==> s[k + 1] != ']'
    ensures Meaning(Pcre, Rewrite(s)) == Meaning(JavaScript, s)
  {
    NotExposedWithoutEscapedBracket(s);
    MeaningKeptIff(s);
  }

  lemma {:induction false} NotExposedWithoutEscapedBracket(s: string)
    requires forall k :: 0 <= k < |s| - 1 && s[k] == '\\' ==> s[k + 1] != ']'
    ensures !SomeClassExposed(s) && !Exposed(s, false)
  {
    if s != "" {
      hide FirstIn, IsClass;
      NotExposedWithoutEscapedBracket(s[1..]);
      NotExposedWithoutEscapedBracket(s[FirstIn(JavaScript, s).1..]);
      if |s| > 1 {
        NotExposedWithoutEscapedBracket(s[2..]);
      }
    }
  }
}
