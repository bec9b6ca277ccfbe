/** When the recursive mkdir succeeds, and with what error it ends otherwise. */
module MakePathOutcome {
  import opened Text
  import opened FileSystem
  import opened TreeWalk
  import opened MakePath

  /** The errors after which the call gives up without looking further. */
  predicate IsFinal(e: Errno) { e == EACCES || e == ENOTDIR || e == EPERM }

  /** The path `t` is made, or refused while being a directory already. */
  ghost predicate Passes(sys: System, fs: Files, t: string, now: Files) {
    && t != "" && |t| <= MAX_PATH
    && match Mkdir(sys, fs, t).1
       case Done => now == Mkdir(sys, fs, t).0
       case Failed(e) => !IsFinal(e) && sys.resolve(t) in fs && fs[sys.resolve(t)].kind == Dir && now == fs
       case _ => false
  }

  /** The call ends at `t` with `r`: the path is too long, or refused. A path refused although
      something else than a directory is there counts as not a directory. */
  ghost predicate Stops(sys: System, fs: Files, t: string, r: Result) {
    if |t| > MAX_PATH then r == TooLong
    else
      match Mkdir(sys, fs, t).1
      case Failed(e) =>
        if IsFinal(e) || t == "" || sys.resolve(t) !in fs then r == Failed(e)
        else fs[sys.resolve(t)].kind != Dir && r == Failed(ENOTDIR)
      case _ => false
  }

  /** The paths pass one after the other, through these file systems. */
  ghost predicate AllPass(sys: System, ts: seq<string>, states: seq<Files>) {
    |states| == |ts| + 1 && forall i :: 0 <= i < |ts| ==> Passes(sys, states[i], ts[i], states[i + 1])
  }

  /** The first `k` paths pass and the next one ends the call, or all pass. */
  ghost predicate IsOutcome(sys: System, fs: Files, ts: seq<string>, k: nat, states: seq<Files>,
                            now: Files, r: Result)
  {
    && k <= |ts| && AllPass(sys, ts[..k], states) && states[0] == fs && states[k] == now
    && if k == |ts| then r == Done else Stops(sys, now, ts[k], r)
  }

  lemma {:induction false} MakeOneIs(sys: System, fs: Files, t: string, now: Files, r: Result)
    ensures |t| <= MAX_PATH ==>
            (MakeOne(sys, fs, t) == (now, r) <==>
               if r == Done then Passes(sys, fs, t, now) else now == fs && Stops(sys, fs, t, r))
  {
  }

  lemma {:induction false} OneMorePasses(sys: System, fs: Files, ts: seq<string>, k: nat, states: seq<Files>,
                                         now: Files, r: Result)
    requires ts != [] && |states| > 0 && IsOutcome(sys, states[0], ts[1..], k, states, now, r)
    requires Passes(sys, fs, ts[0], states[0])
    ensures IsOutcome(sys, fs, ts, k + 1, [fs] + states, now, r)
  {
    hide Passes, Stops;
    var all := [fs] + states;
    assert ts[..k + 1] == [ts[0]] + ts[1..][..k];
    forall i | 0 <= i < k + 1 ensures Passes(sys, all[i], ts[..k + 1][i], all[i + 1]) {
      if i > 0 {
        assert ts[..k + 1][i] == ts[1..][..k][i - 1];
      }
    }
  }

  /** The loop over the paths has an outcome of this kind. */
  lemma {:induction false} OutcomeExists(sys: System, fs: Files, ts: seq<string>)
    returns (k: nat, states: seq<Files>)
    ensures IsOutcome(sys, fs, ts, k, states, MakeAll(sys, fs, ts).0, MakeAll(sys, fs, ts).1)
    decreases |ts|
  {
    hide Passes, Stops, MakeOne;
    if ts == [] || |ts[0]| > MAX_PATH {
      k, states := 0, [fs];
      LongStops(sys, fs, ts);
    } else {
      var (fs', r) := MakeOne(sys, fs, ts[0]);
      MakeOneIs(sys, fs, ts[0], fs', r);
      if r == Done {
        var k', states' := OutcomeExists(sys, fs', ts[1..]);
        OneMorePasses(sys, fs, ts, k', states', MakeAll(sys, fs, ts).0, MakeAll(sys, fs, ts).1);
        k, states := k' + 1, [fs] + states';
      } else {
        k, states := 0, [fs];
      }
    }
  }

  lemma LongStops(sys: System, fs: Files, ts: seq<string>)
    ensures ts != [] && |ts[0]| > MAX_PATH ==> Stops(sys, fs, ts[0], TooLong)
  {
  }

  /** And it is the only one. */
  lemma {:induction false} OutcomeIsUnique(sys: System, fs: Files, ts: seq<string>, k: nat, states: seq<Files>,
                                           now: Files, r: Result)
    requires IsOutcome(sys, fs, ts, k, states, now, r)
    ensures MakeAll(sys, fs, ts) == (now, r)
    decreases |ts|
  {
    if ts != [] {
      if k == 0 {
        StopsNow(sys, fs, ts[0], r);
      } else {
        hide Stops, MakeOne;
        assert Passes(sys, states[0], ts[..k][0], states[1]);
        PassesNow(sys, fs, ts[0], states[1]);
        hide Passes;
        assert ts[1..][..k - 1] == ts[..k][1..];
        forall i | 0 <= i < k - 1 ensures Passes(sys, states[1..][i], ts[1..][..k - 1][i], states[1..][i + 1]) {
          assert Passes(sys, states[i + 1], ts[..k][i + 1], states[i + 2]);
        }
        OutcomeIsUnique(sys, states[1], ts[1..], k - 1, states[1..], now, r);
      }
    }
  }

  lemma StopsNow(sys: System, fs: Files, t: string, r: Result)
    requires Stops(sys, fs, t, r)
    ensures r != Done && (|t| > MAX_PATH ==> r == TooLong)
    ensures |t| <= MAX_PATH ==> MakeOne(sys, fs, t) == (fs, r)
  {
  }

  lemma PassesNow(sys: System, fs: Files, t: string, now: Files)
    requires Passes(sys, fs, t, now)
    ensures |t| <= MAX_PATH && MakeOne(sys, fs, t) == (now, Done)
  {
  }

  /** The result of a recursive call: the prefixes pass in turn until one ends the call, or all
      of them pass. */
  lemma {:induction false} MakeIff(sys: System, fs: Files, s: string, behind: string, now: Files, r: Result)
    requires s != ""
    ensures Make(sys, fs, s, behind, true) == (now, r)
       <==> exists k: nat, states: seq<Files> :: IsOutcome(sys, fs, Prefixes(s, 0), k, states, now, r)
  {
    hide IsOutcome, MakeAll, Prefixes;
    if Make(sys, fs, s, behind, true) == (now, r) {
      var k, states := OutcomeExists(sys, fs, Prefixes(s, 0));
      assert IsOutcome(sys, fs, Prefixes(s, 0), k, states, now, r);
    }
    if exists k: nat, states: seq<Files> :: IsOutcome(sys, fs, Prefixes(s, 0), k, states, now, r) {
      var k: nat, states: seq<Files> :| IsOutcome(sys, fs, Prefixes(s, 0), k, states, now, r);
      OutcomeIsUnique(sys, fs, Prefixes(s, 0), k, states, now, r);
    }
  }

  /** Without recursion the call is one attempt at the whole path. */
  lemma PlainMake(sys: System, fs: Files, s: string, behind: string)
    ensures Make(sys, fs, s, behind, false) == Mkdir(sys, fs, s)
  {
  }

  /** A path whose prefixes are all directories already is made by doing nothing. */
  lemma {:induction false} ExistingPathIsDone(sys: System, fs: Files, s: string, behind: string)
    requires s != "" && |s| <= MAX_PATH
    requires forall k :: 0 < k <= |s| && (k == |s| || s[k] == '/') ==>
               IsDirectory(sys, fs, s[..k]) && Mkdir(sys, fs, s[..k]).1 == Failed(EEXIST)
    ensures Make(sys, fs, s, behind, true) == (fs, Done)
  {
    hide MakeAll;
    var ts := Prefixes(s, 0);
    var states := seq(|ts| + 1, _ => fs);
    forall i | 0 <= i < |ts| ensures Passes(sys, fs, ts[i], fs) {
      PrefixesGrow(s, 0, i);
      hide Prefixes;
      var k := |ts[i]|;
      assert ts[i] == s[..k] && s[..k] in ts;
      PrefixesAre(s, 0, k);
    }
    assert ts[..|ts|] == ts;
    OutcomeIsUnique(sys, fs, ts, |ts|, states, fs, Done);
  }

  /** `t` is a beginning of `s` longer than `prev`. */
  predicate IsBeginning(s: string, prev: nat, t: string) { t <= s && prev < |t| }

  /** The prefixes are tried from the shortest to the longest. */
  lemma {:induction false} PrefixesGrow(s: string, prev: nat, i: nat)
    requires prev < |s| && i < |Prefixes(s, prev)|
    ensures IsBeginning(s, prev, Prefixes(s, prev)[i])
    ensures i > 0 ==> |Prefixes(s, prev)[i - 1]| < |Prefixes(s, prev)[i]|
    decreases |s| - prev
  {
    hide Scan;
    var p := NextSlash(s, prev + 1);
    if i > 0 {
      assert Prefixes(s, prev) == [s[..p]] + Prefixes(s, p);
      PrefixesGrow(s, p, i - 1);
    }
  }
}
