/** The software-check progress screen: it shows the worker's progress
    value and, each time that value is exactly 100, raises `CheckDone`,
    which its own `onCheckDone` slot turns into one `AllCheckDone` for the
    parent screen. Signals are counted rather than dispatched. */
module CheckProgress {

  /** The displayed progress value and how many of each signal were raised. */
  datatype ProgressScreen = ProgressScreen(value: int, checkDone: nat, allCheckDone: nat)

  /** The value the progress circle is given when the screen is built. */
  const InitialValue := 1

  /** The value that completes the check. */
  const Complete := 100

  function Initial(): (w: ProgressScreen)
    ensures w.value == 1
    ensures w.checkDone == 0 && w.allCheckDone == 0
  {
    ProgressScreen(InitialValue, 0, 0)
  }

  /** `onCheckDone`: one `AllCheckDone` per `CheckDone` received. */
  function OnCheckDone(w: ProgressScreen): (r: ProgressScreen)
    ensures r.allCheckDone == w.allCheckDone + 1
    ensures r.value == w.value && r.checkDone == w.checkDone
  {
    w.(allCheckDone := w.allCheckDone + 1)
  }

  /** `onCheckProgressUpdate(progress)`: the value is shown whatever its
      range, and `CheckDone` is raised, and handled, only for exactly 100.
      Nothing latches: every 100 raises it again. */
  function OnCheckProgressUpdate(w: ProgressScreen, progress: int): (r: ProgressScreen)
    ensures r.value == progress
    ensures r.checkDone > w.checkDone <==> progress == 100
    ensures r.checkDone <= w.checkDone + 1
    ensures r.allCheckDone - w.allCheckDone == r.checkDone - w.checkDone
    ensures progress != Complete ==> r.checkDone == w.checkDone && r.allCheckDone == w.allCheckDone
  {
    var shown := w.(value := progress);
    if progress == Complete then OnCheckDone(shown.(checkDone := shown.checkDone + 1))
    else shown
  }

  /** Both signals have been raised equally often. */
  predicate Balanced(w: ProgressScreen) {
    w.allCheckDone == w.checkDone
  }

  /** Each `CheckDone` produces exactly one `AllCheckDone`: an update keeps
      the two counts equal. */
  lemma UpdateKeepsBalance(w: ProgressScreen, progress: int)
    requires Balanced(w)
    ensures Balanced(OnCheckProgressUpdate(w, progress))
  {
  }

  /** The screen after a sequence of updates, the first applied first. */
  function Run(w: ProgressScreen, updates: seq<int>): ProgressScreen
  {
    if |updates| == 0 then w
    else OnCheckProgressUpdate(Run(w, updates[..|updates| - 1]), updates[|updates| - 1])
  }

  /** Over any sequence of updates, `AllCheckDone` is raised once per
      occurrence of 100 in it, and the screen shows the last value
      received. */
  lemma {:induction false} RunCountsCompletions(w: ProgressScreen, updates: seq<int>)
    ensures Run(w, updates).allCheckDone == w.allCheckDone + multiset(updates)[100]
    ensures Run(w, updates).checkDone == w.checkDone + multiset(updates)[100]
    ensures Run(w, updates).value == if |updates| == 0 then w.value else updates[|updates| - 1]
  {
    if |updates| > 0 {
      var init := updates[..|updates| - 1];
      RunCountsCompletions(w, init);
      assert updates == init + [updates[|updates| - 1]];
      assert multiset(updates) == multiset(init) + multiset{updates[|updates| - 1]};
    }
  }

  /** From the freshly built screen, a run that never receives 100 raises
      nothing, and one that receives 100 `n` times raises `AllCheckDone` `n`
      times. */
  lemma CompletionsFromStart(updates: seq<int>)
    ensures Run(Initial(), updates).allCheckDone == multiset(updates)[100]
    ensures 100 !in updates ==> Run(Initial(), updates).allCheckDone == 0
    ensures Run(Initial(), updates).value == if |updates| == 0 then 1 else updates[|updates| - 1]
  {
    RunCountsCompletions(Initial(), updates);
  }
}
