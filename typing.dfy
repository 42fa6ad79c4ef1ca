/** The hero typing animation of js/main.js: a tick rewrites the shown text
    and reschedules itself; reaching the end of a title schedules, two
    seconds later, the switch to deleting. Timers are abstract: `Tick` and
    `SwitchToDeleting` are the two events, taken in any order the timers
    allow. */
module Typing {

  const Texts: seq<string> := [
    "GIS Analyst",
    "Spatial Analyst",
    "Remote Sensing Expert",
    "Environmental Mapper",
    "Web Mapping",
    "Data Scientist",
    "Cartographer"
  ]

  const DeleteDelay: int := 50
  const TypeDelay: int := 100

  lemma TextsNonEmpty()
    ensures |Texts| == 7
    ensures forall i :: 0 <= i < |Texts| ==> |Texts[i]| > 0
  {
  }

  function Clamp(x: int, len: nat): (r: nat)
    ensures r <= len
    ensures 0 <= x <= len ==> r == x
  {
    if x < 0 then 0 else if x > len then len else x
  }

  /** `String.prototype.substring(start, end)`: both ends clamped to the
      string, swapped when out of order. */
  function Substring(s: string, start: int, end: int): (r: string)
    ensures start == 0 ==> r == s[..Clamp(end, |s|)]
  {
    var a := Clamp(start, |s|);
    var b := Clamp(end, |s|);
    if a <= b then s[a..b] else s[b..a]
  }

  /** The animation's variables, the shown text, and how many switches to
      deleting are scheduled and not yet fired. */
  datatype TypingState = TypingState(textIndex: int, charIndex: int, isDeleting: bool, shown: string, pending: nat)

  const Start: TypingState := TypingState(0, 0, false, "", 0)

  /** The text the variables describe: the first `charIndex` characters,
      clamped to the title. */
  function Expected(st: TypingState): string
    requires 0 <= st.textIndex < |Texts|
  {
    Texts[st.textIndex][..Clamp(st.charIndex, |Texts[st.textIndex]|)]
  }

  /** What holds between events: the index stays in range, the text shown is
      the described prefix, deleting never starts from zero, and a switch is
      scheduled exactly while typing has gone past the title's end. */
  ghost predicate Inv(st: TypingState) {
    && 0 <= st.textIndex < |Texts|
    && 0 <= st.charIndex
    && st.shown == Expected(st)
    && st.pending <= 1
    && (st.isDeleting ==> st.charIndex >= 1 && st.pending == 0)
    && (!st.isDeleting ==> (st.pending == 1 <==> st.charIndex >= |Texts[st.textIndex]|))
  }

  /** One call of `typeAnimation`, without the rescheduling. */
  function TickSpec(st: TypingState): TypingState
    requires 0 <= st.textIndex < |Texts|
  {
    var current := Texts[st.textIndex];
    var shown := if st.isDeleting then Substring(current, 0, st.charIndex - 1) else Substring(current, 0, st.charIndex + 1);
    var c := if st.isDeleting then st.charIndex - 1 else st.charIndex + 1;
    if !st.isDeleting && c == |current| then
      TypingState(st.textIndex, c, st.isDeleting, shown, st.pending + 1)
    else if st.isDeleting && c == 0 then
      TypingState((st.textIndex + 1) % |Texts|, c, false, shown, st.pending)
    else
      TypingState(st.textIndex, c, st.isDeleting, shown, st.pending)
  }

  /** The delay `typeAnimation` asks for after a tick. */
  function Delay(st: TypingState): int {
    if st.isDeleting then DeleteDelay else TypeDelay
  }

  /** The scheduled switch firing. */
  function SwitchSpec(st: TypingState): TypingState
    requires st.pending > 0
  {
    TypingState(st.textIndex, st.charIndex, true, st.shown, st.pending - 1)
  }

  lemma StartInv()
    ensures Inv(Start)
  {
    TextsNonEmpty();
  }

  /** A tick keeps the invariant: in particular the shown text stays a prefix
      of the current title, the index stays in range, `charIndex` never goes
      negative and at most one switch is ever pending. */
  lemma TickPreservesInv(st: TypingState)
    requires Inv(st)
    ensures Inv(TickSpec(st))
    ensures TickSpec(st).shown <= Texts[TickSpec(st).textIndex]
  {
    TextsNonEmpty();
    var r := TickSpec(st);
    var current := Texts[st.textIndex];
    if st.isDeleting && st.charIndex == 1 {
      assert r.shown == "";
    }
  }

  lemma SwitchPreservesInv(st: TypingState)
    requires Inv(st) && st.pending > 0
    ensures Inv(SwitchSpec(st))
  {
    TextsNonEmpty();
  }

  /** A tick moves `charIndex` one step up while typing and one step down
      while deleting, and the next delay is 50 when deleting, else 100. */
  lemma TickSteps(st: TypingState)
    requires Inv(st)
    ensures !st.isDeleting ==> TickSpec(st).charIndex == st.charIndex + 1
    ensures st.isDeleting ==> TickSpec(st).charIndex == st.charIndex - 1
    ensures Delay(TickSpec(st)) == (if TickSpec(st).isDeleting then 50 else 100)
  {
  }

  /** Deleting down to zero clears the text and moves to the next title,
      wrapping after the last. */
  lemma DeletionAdvances(st: TypingState)
    requires Inv(st) && st.isDeleting && st.charIndex == 1
    ensures var r := TickSpec(st);
      r == TypingState((st.textIndex + 1) % 7, 0, false, "", 0)
  {
  }

  /** While the switch is pending, ticks keep raising `charIndex` and the
      full title stays on screen. */
  lemma HoldWhilePending(st: TypingState)
    requires Inv(st) && st.pending == 1
    ensures var r := TickSpec(st);
      && r.charIndex == st.charIndex + 1 && r.pending == 1 && !r.isDeleting
      && r.shown == Texts[st.textIndex] && r.textIndex == st.textIndex
  {
  }

  function Ticks(st: TypingState, n: nat): TypingState
    requires Inv(st)
    ensures Inv(Ticks(st, n))
    decreases n
  {
    TickPreservesInv(st);
    if n == 0 then st else Ticks(TickSpec(st), n - 1)
  }

  /** The state typing ends in: the whole title shown and the switch to
      deleting scheduled. */
  function AfterTyping(textIndex: int): TypingState
    requires 0 <= textIndex < |Texts|
  {
    TypingState(textIndex, |Texts[textIndex]|, false, Texts[textIndex], 1)
  }

  /** Typing from any point before the end shows the whole title after the
      remaining number of ticks, with the switch then scheduled. */
  lemma {:induction false} TypingCompletes(st: TypingState)
    requires Inv(st) && !st.isDeleting && st.charIndex < |Texts[st.textIndex]|
    ensures Ticks(st, |Texts[st.textIndex]| - st.charIndex) == AfterTyping(st.textIndex)
    decreases |Texts[st.textIndex]| - st.charIndex
  {
    var n := |Texts[st.textIndex]| - st.charIndex;
    if n > 1 {
      var next := TickSpec(st);
      TypingStep(st);
      TypingCompletes(next);
      TicksUnfold(st, n);
    } else {
      LastTyping(st);
    }
  }

  /** A typing tick before the last character keeps typing the same title. */
  lemma TypingStep(st: TypingState)
    requires Inv(st) && !st.isDeleting && st.charIndex + 1 < |Texts[st.textIndex]|
    ensures var r := TickSpec(st);
      Inv(r) && !r.isDeleting && r.charIndex == st.charIndex + 1 && r.textIndex == st.textIndex
  {
    TickPreservesInv(st);
  }

  lemma LastTyping(st: TypingState)
    requires Inv(st) && !st.isDeleting && st.charIndex + 1 == |Texts[st.textIndex]|
    ensures Ticks(st, 1) == AfterTyping(st.textIndex)
  {
    TicksUnfold(st, 1);
  }

  /** The state a deletion ends in: nothing shown, typing the title after
      `textIndex`. */
  function AfterDeletion(textIndex: int): TypingState {
    TypingState((textIndex + 1) % |Texts|, 0, false, "", 0)
  }

  /** Deleting from `charIndex` c empties the text after c ticks and moves
      to the next title. */
  lemma {:induction false} DeletingCompletes(st: TypingState)
    requires Inv(st) && st.isDeleting
    ensures Ticks(st, st.charIndex as nat) == AfterDeletion(st.textIndex)
    decreases st.charIndex
  {
    if st.charIndex > 1 {
      var next := TickSpec(st);
      DeletionStep(st);
      DeletingCompletes(next);
      TicksUnfold(st, st.charIndex as nat);
    } else {
      LastDeletion(st);
    }
  }

  lemma LastDeletion(st: TypingState)
    requires Inv(st) && st.isDeleting && st.charIndex == 1
    ensures Ticks(st, 1) == AfterDeletion(st.textIndex)
  {
    DeletionAdvances(st);
    TicksUnfold(st, 1);
  }

  /** A deleting tick above one character keeps deleting the same title. */
  lemma DeletionStep(st: TypingState)
    requires Inv(st) && st.isDeleting && st.charIndex > 1
    ensures var r := TickSpec(st);
      Inv(r) && r.isDeleting && r.charIndex == st.charIndex - 1 && r.textIndex == st.textIndex
  {
    TickPreservesInv(st);
  }

  lemma TicksUnfold(st: TypingState, n: nat)
    requires Inv(st) && n > 0
    ensures Inv(TickSpec(st)) && Ticks(st, n) == Ticks(TickSpec(st), n - 1)
  {
    TickPreservesInv(st);
  }

  /** The animation's module-level variables and the `.typed-text` element. */
  class TypingAnimation {
    var textIndex: int
    var charIndex: int
    var isDeleting: bool
    var shown: string
    var pending: nat

    function State(): TypingState
      reads this
    {
      TypingState(textIndex, charIndex, isDeleting, shown, pending)
    }

    ghost predicate Valid()
      reads this
    {
      Inv(State())
    }

    constructor ()
      ensures State() == Start && Valid()
    {
      textIndex := 0;
      charIndex := 0;
      isDeleting := false;
      shown := "";
      pending := 0;
      new;
      StartInv();
    }

    /** `typeAnimation`: returns the delay of the tick it schedules next. */
    method Tick() returns (delay: int)
      requires Valid()
      modifies this
      ensures State() == TickSpec(old(State())) && Valid()
      ensures delay == Delay(State())
    {
      TickPreservesInv(State());
      ghost var next := TickSpec(State());
      var currentText := Texts[textIndex];
      if isDeleting {
        shown := Substring(currentText, 0, charIndex - 1);
        charIndex := charIndex - 1;
      } else {
        shown := Substring(currentText, 0, charIndex + 1);
        charIndex := charIndex + 1;
      }
      if !isDeleting && charIndex == |currentText| {
        pending := pending + 1;
      } else if isDeleting && charIndex == 0 {
        isDeleting := false;
        textIndex := (textIndex + 1) % |Texts|;
      }
      assert textIndex == next.textIndex && charIndex == next.charIndex && isDeleting == next.isDeleting;
      assert shown == next.shown && pending == next.pending;
      delay := if isDeleting then DeleteDelay else TypeDelay;
    }

    /** The callback `() => isDeleting = true` firing. */
    method SwitchToDeleting()
      requires Valid() && pending > 0
      modifies this
      ensures State() == SwitchSpec(old(State())) && Valid()
    {
      SwitchPreservesInv(State());
      isDeleting := true;
      pending := pending - 1;
    }
  }
}
