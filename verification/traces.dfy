/**
  Runs of the viewer: what a whole sequence of handler calls does, starting
  from some state. Each handler is one atomic step, in the order the browser
  delivers them.
 */
module DocTraces {
  import opened DocModel

  /** The state after the handlers `evs`, in order. */
  function Run(v: View, evs: seq<Event>): View
    decreases |evs|
  {
    if evs == [] then v else Run(Step(v, evs[0]), evs[1..])
  }

  /** Every handler in `evs` can run at the moment it runs. */
  predicate Admissible(v: View, evs: seq<Event>)
    decreases |evs|
  {
    evs == [] || (Enabled(v, evs[0]) && Admissible(Step(v, evs[0]), evs[1..]))
  }

  /** `k` presses of the same button. */
  function Repeat(e: Event, k: nat): (evs: seq<Event>)
    ensures |evs| == k
    ensures forall j :: 0 <= j < k ==> evs[j] == e
  {
    if k == 0 then [] else [e] + Repeat(e, k - 1)
  }

  /** How many successful loads `evs` holds. */
  function Loads(evs: seq<Event>): nat
    decreases |evs|
  {
    if evs == [] then 0 else (if evs[0].Loaded? then 1 else 0) + Loads(evs[1..])
  }

  /** The invariant holds after any run of handlers that can run. */
  lemma {:induction false} RunKeepsInvariant(v: View, evs: seq<Event>)
    requires Invariant(v) && Admissible(v, evs)
    ensures Invariant(Run(v, evs))
    decreases |evs|
  {
    if evs != [] {
      RunKeepsInvariant(Step(v, evs[0]), evs[1..]);
    }
  }

  /** Every state reachable from the first render satisfies the invariant. */
  lemma ReachableStatesAreValid(evs: seq<Event>)
    requires Admissible(Initial, evs)
    ensures Invariant(Run(Initial, evs))
  {
    RunKeepsInvariant(Initial, evs);
  }

  /**
    Loading is one-way: the state is still loading after a run exactly when it
    was loading before and no handler in the run settled the request.
   */
  lemma {:induction false} LoadingOneWay(v: View, evs: seq<Event>)
    ensures Run(v, evs).loading <==> v.loading && forall k :: 0 <= k < |evs| ==> !Settles(evs[k])
    decreases |evs|
  {
    if evs != [] {
      var w := Step(v, evs[0]);
      LoadingOneWay(w, evs[1..]);
      if Settles(evs[0]) {
        assert !w.loading;
      } else {
        assert w.loading == v.loading;
        forall k | 0 <= k < |evs| && k != 0
          ensures Settles(evs[k]) == Settles(evs[1..][k - 1])
        {
        }
      }
    }
  }

  /** After a run that can run, the configuration has been replaced at most once, and never once loading is over. */
  lemma {:induction false} AtMostOneLoad(v: View, evs: seq<Event>)
    requires Admissible(v, evs)
    ensures Loads(evs) <= (if v.loading then 1 else 0)
    decreases |evs|
  {
    if evs != [] {
      AtMostOneLoad(Step(v, evs[0]), evs[1..]);
    }
  }

  /** A run without a successful load keeps the configuration. */
  lemma {:induction false} NoLoadKeepsConfig(v: View, evs: seq<Event>)
    requires Loads(evs) == 0
    ensures Run(v, evs).config == v.config
    decreases |evs|
  {
    if evs != [] {
      NoLoadKeepsConfig(Step(v, evs[0]), evs[1..]);
    }
  }

  /** After a run that can run, the configuration is the one the successful load (if any) carried. */
  lemma {:induction false} ConfigIsTheLoadedOne(v: View, evs: seq<Event>, k: nat)
    requires Admissible(v, evs) && k < |evs| && evs[k].Loaded?
    ensures Run(v, evs).config == evs[k].parsed
    decreases |evs|
  {
    var w := Step(v, evs[0]);
    if k == 0 {
      AtMostOneLoad(w, evs[1..]);
      NoLoadKeepsConfig(w, evs[1..]);
    } else {
      ConfigIsTheLoadedOne(w, evs[1..], k - 1);
    }
  }

  /**
    The document title, from the first render on, is "Documentation" until a
    load succeeds and the loaded configuration's title after that.
   */
  lemma TitleFollowsConfig(evs: seq<Event>)
    requires Admissible(Initial, evs)
    ensures Loads(evs) == 0 ==> DocumentTitle(Run(Initial, evs)) == "Documentation"
    ensures forall k :: 0 <= k < |evs| && evs[k].Loaded? ==>
      DocumentTitle(Run(Initial, evs)) == evs[k].parsed.title
  {
    if Loads(evs) == 0 {
      NoLoadKeepsConfig(Initial, evs);
    }
    forall k | 0 <= k < |evs| && evs[k].Loaded?
      ensures DocumentTitle(Run(Initial, evs)) == evs[k].parsed.title
    {
      ConfigIsTheLoadedOne(Initial, evs, k);
    }
  }

  /**
    Pressing "Next" `k` times walks forward `k` pages but stops at the last
    page instead of wrapping; nothing but the index changes.
   */
  lemma {:induction false} NextPresses(v: View, k: nat)
    requires Invariant(v)
    ensures Run(v, Repeat(Next, k)) ==
      v.(currentPage := if |v.config.pages| == 0 then 0 else Min(v.currentPage + k, |v.config.pages| - 1))
    decreases k
  {
    if k > 0 {
      var w := Step(v, Next);
      assert Repeat(Next, k)[1..] == Repeat(Next, k - 1);
      NextPresses(w, k - 1);
    }
  }

  /**
    Pressing "Previous" `k` times walks back `k` pages but stops at the first
    page; nothing but the index changes.
   */
  lemma {:induction false} PrevPresses(v: View, k: nat)
    requires Invariant(v)
    ensures Run(v, Repeat(Prev, k)) == v.(currentPage := Max(v.currentPage - k, 0))
    decreases k
  {
    if k > 0 {
      var w := Step(v, Prev);
      assert Repeat(Prev, k)[1..] == Repeat(Prev, k - 1);
      PrevPresses(w, k - 1);
    }
  }

  /**
    A two-page document: the first page is on screen after loading, "Next"
    shows the second, and a further "Next" changes nothing.
   */
  lemma TwoPageWalk()
    ensures var c := Config("Docs", [Page(1, "A", "# Hi"), Page(2, "B", "**bold**")]);
      var loaded := Run(Initial, [Loaded(c)]);
      var once := Run(Initial, [Loaded(c), Next]);
      var twice := Run(Initial, [Loaded(c), Next, Next]);
      && DocumentTitle(loaded) == "Docs" && !loaded.loading
      && Content(loaded) == "# Hi" && NextButton(loaded) == Shown("B") && PrevButton(loaded) == Hidden
      && Content(once) == "**bold**" && PrevButton(once) == Shown("A") && NextButton(once) == Hidden
      && twice == once
      && Admissible(Initial, [Loaded(c), Next, Next])
      && !Admissible(Initial, [ToggleMenu, Loaded(c)])
  {
    var c := Config("Docs", [Page(1, "A", "# Hi"), Page(2, "B", "**bold**")]);
    var loaded := Step(Initial, Loaded(c));
    var once := Step(loaded, Next);
    assert Run(Initial, [Loaded(c)]) == loaded by {
      assert [Loaded(c)][1..] == [];
    }
    assert Run(Initial, [Loaded(c), Next]) == once by {
      assert [Loaded(c), Next][1..] == [Next];
      assert [Next][1..] == [];
    }
    assert Run(Initial, [Loaded(c), Next, Next]) == Step(once, Next) by {
      assert [Loaded(c), Next, Next][1..] == [Next, Next];
      assert [Next, Next][1..] == [Next];
      assert [Next][1..] == [];
    }
  }
}
