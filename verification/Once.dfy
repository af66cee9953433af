/** once() of crc32.c with atomics: any number of threads, every interleaving of their atomic steps. */
module Once {

  /** Where a thread is: about to load `done`, about to test and set `begun`, waiting, about to call the
      initialiser, inside it, about to store `done`, or back from the call. */
  datatype Place = Loading | Testing | Waiting | Calling | Initialising | Storing | Returned

  /** The shared flags, how often the initialiser was entered and left, and where each thread is. */
  datatype State = State(begun: bool, done: bool, entered: nat, left: nat, at: seq<Place>)

  /** The next atomic step of thread i. */
  function Move(s: State, i: nat): State
    requires i < |s.at|
  {
    match s.at[i]
    case Loading => s.(at := s.at[i := if s.done then Returned else Testing])
    case Testing => if s.begun then s.(at := s.at[i := Waiting]) else s.(begun := true, at := s.at[i := Calling])
    case Waiting => s.(at := s.at[i := if s.done then Returned else Waiting])
    case Calling => s.(entered := s.entered + 1, at := s.at[i := Initialising])
    case Initialising => s.(left := s.left + 1, at := s.at[i := Storing])
    case Storing => s.(done := true, at := s.at[i := Returned])
    case Returned => s
  }

  /** Some thread takes a step. */
  ghost predicate Step(s: State, t: State) {
    exists i :: 0 <= i < |s.at| && s.at[i] != Returned && t == Move(s, i)
  }

  ghost predicate Initial(s: State) {
    !s.begun && !s.done && s.entered == 0 && s.left == 0 && forall i :: 0 <= i < |s.at| ==> s.at[i] == Loading
  }

  /** A run: each state follows from the one before by a step of some thread. */
  ghost predicate Run(states: seq<State>) {
    && |states| > 0 && Initial(states[0])
    && forall k :: 0 <= k < |states| - 1 ==> Step(states[k], states[k + 1])
  }

  /** Is the thread between winning the flag and returning? */
  predicate Winning(p: Place) {
    p == Calling || p == Initialising || p == Storing
  }

  ghost predicate Inv(s: State) {
    && (forall i, j :: 0 <= i < j < |s.at| ==> !(Winning(s.at[i]) && Winning(s.at[j])))
    && (!s.begun ==> !s.done && s.entered == 0 && s.left == 0)
    && (s.done ==> s.left == 1)
    && s.left <= s.entered <= 1
    && (forall i :: 0 <= i < |s.at| ==> Consistent(s, s.at[i]))
    && (s.begun && !s.done ==> exists i :: 0 <= i < |s.at| && Winning(s.at[i]))
  }

  /** What the place of a thread says about the flags and the initialiser. */
  ghost predicate Consistent(s: State, p: Place) {
    match p
    case Calling => s.begun && !s.done && s.entered == 0
    case Initialising => s.begun && !s.done && s.entered == 1 && s.left == 0
    case Storing => s.begun && !s.done && s.left == 1
    case Waiting => s.begun
    case Returned => s.done
    case _ => true
  }

  lemma StepKeeps(s: State, i: nat)
    requires Inv(s) && i < |s.at|
    ensures Inv(Move(s, i))
  {
    var t := Move(s, i);
    forall j | 0 <= j < |t.at| ensures Consistent(t, t.at[j]) {
      assert Consistent(s, s.at[j]) && Consistent(s, s.at[i]);
    }
    if t.begun && !t.done {
      if s.begun {
        var w :| 0 <= w < |s.at| && Winning(s.at[w]);
        assert Winning(t.at[w]);
      } else {
        assert Winning(t.at[i]);
      }
    }
  }

  lemma {:induction false} RunKeeps(states: seq<State>, k: nat)
    requires Run(states) && k < |states|
    ensures Inv(states[k])
  {
    if k > 0 {
      RunKeeps(states, k - 1);
      assert Step(states[k - 1], states[k - 1 + 1]);
      var i :| 0 <= i < |states[k - 1].at| && states[k - 1].at[i] != Returned && states[k] == Move(states[k - 1], i);
      StepKeeps(states[k - 1], i);
    }
  }

  /** The initialiser is entered at most once, and no caller returns before it has finished. */
  lemma OnceOnly(states: seq<State>, k: nat, i: nat)
    requires Run(states) && k < |states| && i < |states[k].at|
    ensures states[k].entered <= 1
    ensures states[k].at[i] == Returned ==> states[k].entered == states[k].left == 1
  {
    RunKeeps(states, k);
    assert Consistent(states[k], states[k].at[i]);
  }

  /** Waiting is never for nothing: while any thread has yet to return, some thread can take a step that
      changes the state, even if all the others wait. */
  lemma NeverStuck(states: seq<State>, k: nat)
    requires Run(states) && k < |states|
    requires exists i :: 0 <= i < |states[k].at| && states[k].at[i] != Returned
    ensures exists i :: 0 <= i < |states[k].at| && Move(states[k], i) != states[k]
  {
    RunKeeps(states, k);
    var s := states[k];
    var i :| 0 <= i < |s.at| && s.at[i] != Returned;
    if s.at[i] == Waiting && !s.done {
      assert Consistent(s, s.at[i]);
      var w :| 0 <= w < |s.at| && Winning(s.at[w]);
      assert Move(s, w).at[w] != s.at[w];
    } else {
      assert Move(s, i).at[i] != s.at[i];
    }
  }
}
