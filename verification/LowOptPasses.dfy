/**
 * -O0 and -O1: pass 0 records where it had to guess a width, later passes look
 * that up with the cursor of the log, and so every instruction is at the same
 * place in all passes.
 */
module LowOptPasses {
  import opened Words
  import opened EffectiveAddress
  import opened WideLog

  // An instruction with an operand in brackets: its terms in pass 0 and in a
  // later pass, and how many other bytes it has.
  datatype Instruction = Instruction(first: seq<Term>, later: seq<Term>, other: nat)

  /** In the later pass only displacements differ, and only if there were undefined labels in pass 0. */
  ghost predicate Sound(i: Instruction) {
    && i.other > 0 && Legal(i.first) && SameShape(i.first, i.later)
    && (!AnyUndefined(i.first) ==> SameOffset(i.first, i.later))
  }

  ghost predicate AllSound(prog: seq<Instruction>) {
    forall k :: 0 <= k < |prog| ==> Sound(prog[k])
  }

  ghost function FirstSize(i: Instruction): (n: nat)
    requires Sound(i)
    ensures n > 0
  {
    SameSize(i.first, i.later);
    i.other + |Emitted(First(i.first))|
  }

  /** Pass 0 records the instruction. */
  ghost predicate Guessed(i: Instruction)
    requires Sound(i)
  {
    First(i.first).width == 3
  }

  /** Where instruction k is in pass 0. */
  ghost function FirstPosition(prog: seq<Instruction>, k: nat): nat
    requires AllSound(prog) && k <= |prog|
  {
    if k == 0 then 0 else FirstPosition(prog, k - 1) + FirstSize(prog[k - 1])
  }

  /** What pass 0 has recorded before instruction k. */
  ghost function Recorded(prog: seq<Instruction>, k: nat): (log: seq<Word>)
    requires AllSound(prog) && k <= |prog|
  {
    if k == 0 then []
    else
      var before := Recorded(prog, k - 1);
      if Guessed(prog[k - 1]) then before + [Wrap(FirstPosition(prog, k - 1))] else before
  }

  // Where a later pass is, the cursor of the log, and whether there was a bad order.
  datatype LaterState = LaterState(position: nat, cursor: int, badOrder: bool)

  /** The state of a later pass before instruction k; operands with registers are looked up. */
  ghost function LaterPass(prog: seq<Instruction>, log: seq<Word>, k: nat): (r: LaterState)
    requires AllSound(prog) && k <= |prog|
    ensures -1 <= r.cursor < |log|
  {
    if k == 0 then LaterState(0, -1, false)
    else
      var st, i := LaterPass(prog, log, k - 1), prog[k - 1];
      SameState(i.first, i.later);
      if StateOf(i.later) == 8 then st.(position := st.position + i.other + LaterBytes(i, false))
      else
        var (outcome, next) := Query(log, st.cursor, Wrap(st.position));
        LaterState(st.position + i.other + LaterBytes(i, outcome == Wide), next, st.badOrder || outcome == BadOrder)
  }

  ghost function LaterBytes(i: Instruction, recordedWide: bool): nat
    requires Sound(i)
  {
    SameState(i.first, i.later);
    |Emitted(Later(i.later, recordedWide))|
  }

  lemma BytesAgree(i: Instruction)
    requires Sound(i)
    ensures i.other + LaterBytes(i, Guessed(i)) == FirstSize(i)
    ensures Guessed(i) ==> StateOf(i.first) != 8
    ensures StateOf(i.later) == StateOf(i.first)
    ensures StateOf(i.first) == 8 ==> FirstSize(i) == i.other + LaterBytes(i, false)
  {
    SameState(i.first, i.later);
    SameSize(i.first, i.later);
    hide Legal, AnyUndefined, Displacements, Times;
  }

  lemma {:induction false} RecordedGrows(prog: seq<Instruction>, k: nat, n: nat)
    requires AllSound(prog) && k <= n <= |prog|
    ensures if k < n then FirstPosition(prog, k) < FirstPosition(prog, n)
            else FirstPosition(prog, k) == FirstPosition(prog, n)
    ensures Recorded(prog, k) <= Recorded(prog, n)
    decreases n
  {
    hide FirstSize, Guessed, Sound;
    if k < n { RecordedGrows(prog, k, n - 1); }
  }

  /** What is recorded later is behind. */
  lemma {:induction false} RecordedBehind(prog: seq<Instruction>, k: nat, n: nat)
    requires AllSound(prog) && k <= n <= |prog| && FirstPosition(prog, n) < TWO_TO_THE_32
    ensures Recorded(prog, k) <= Recorded(prog, n)
    ensures forall j :: |Recorded(prog, k)| <= j < |Recorded(prog, n)| ==>
              Recorded(prog, n)[j] >= FirstPosition(prog, k)
    decreases n
  {
    hide FirstSize, Guessed, Sound;
    RecordedGrows(prog, k, n);
    if k < n {
      RecordedGrows(prog, k, n - 1);
      RecordedGrows(prog, n - 1, n);
      RecordedBehind(prog, k, n - 1);
    }
  }

  lemma {:induction false} RecordedBefore(prog: seq<Instruction>, k: nat)
    requires AllSound(prog) && k <= |prog| && FirstPosition(prog, k) < TWO_TO_THE_32
    ensures forall j :: 0 <= j < |Recorded(prog, k)| ==> Recorded(prog, k)[j] < FirstPosition(prog, k)
  {
    hide FirstSize, Guessed, Sound;
    if k > 0 {
      RecordedGrows(prog, k - 1, k);
      RecordedBefore(prog, k - 1);
    }
  }

  /** The cursor stands on what was recorded last, and answers what pass 0 recorded next. */
  lemma AnswerIsRight(prog: seq<Instruction>, k: nat)
    requires AllSound(prog) && k < |prog| && FirstPosition(prog, |prog|) < TWO_TO_THE_32
    ensures var log, recorded := Recorded(prog, |prog|), Guessed(prog[k]);
            var cursor := |Recorded(prog, k)| - 1;
            && -1 <= cursor < |log|
            && Query(log, cursor, Wrap(FirstPosition(prog, k))) ==
               if recorded then (Wide, cursor + 1) else (Narrow, cursor)
  {
    hide FirstSize, Guessed, Sound, Recorded, FirstPosition, Query;
    var log, before, after := Recorded(prog, |prog|), Recorded(prog, k), Recorded(prog, k + 1);
    var position := FirstPosition(prog, k);
    RecordedGrows(prog, k, |prog|);
    RecordedGrows(prog, k, k + 1);
    RecordedGrows(prog, k + 1, |prog|);
    RecordedBehind(prog, k + 1, |prog|);
    RecordedBefore(prog, k);
    RecordedStep(prog, k);
    if Guessed(prog[k]) { assert log[|before|] == after[|before|]; }
    WrapOfPosition(position);
    QueryAt(log, before, position, Guessed(prog[k]));
  }

  lemma WrapOfPosition(x: nat)
    requires x < TWO_TO_THE_32
    ensures Wrap(x) == x
  {
  }

  lemma RecordedStep(prog: seq<Instruction>, k: nat)
    requires AllSound(prog) && k < |prog|
    ensures Recorded(prog, k + 1) ==
            if Guessed(prog[k]) then Recorded(prog, k) + [Wrap(FirstPosition(prog, k))] else Recorded(prog, k)
    ensures FirstPosition(prog, k + 1) == FirstPosition(prog, k) + FirstSize(prog[k])
  {
    hide FirstSize, Guessed;
  }

  lemma LaterStep(prog: seq<Instruction>, log: seq<Word>, k: nat)
    requires AllSound(prog) && k < |prog|
    ensures var st, i := LaterPass(prog, log, k), prog[k];
            LaterPass(prog, log, k + 1) ==
            if StateOf(i.later) == 8 then st.(position := st.position + i.other + LaterBytes(i, false))
            else
              var (outcome, next) := Query(log, st.cursor, Wrap(st.position));
              LaterState(st.position + i.other + LaterBytes(i, outcome == Wide), next,
                         st.badOrder || outcome == BadOrder)
  {
    hide Query, LaterBytes, StateOf, Sound;
  }

  lemma QueryAt(log: seq<Word>, before: seq<Word>, position: Word, guessed: bool)
    requires before <= log && forall j :: 0 <= j < |before| ==> before[j] < position
    requires guessed ==> |before| < |log| && log[|before|] == position
    requires !guessed ==> forall j :: |before| <= j < |log| ==> log[j] > position
    ensures Query(log, |before| - 1, position) == if guessed then (Wide, |before|) else (Narrow, |before| - 1)
  {
    assert before != [] ==> log[|before| - 1] == before[|before| - 1];
  }

  /**
   * In a later pass every instruction is where it was in pass 0, with as many
   * bytes, and the log is never asked in a bad order.
   */
  lemma {:induction false} SamePlaces(prog: seq<Instruction>, k: nat)
    requires AllSound(prog) && k <= |prog| && FirstPosition(prog, |prog|) < TWO_TO_THE_32
    ensures LaterPass(prog, Recorded(prog, |prog|), k) ==
            LaterState(FirstPosition(prog, k), |Recorded(prog, k)| - 1, false)
  {
    hide FirstSize, Guessed, Sound, Query, StateOf, LaterBytes, Wrap, LaterPass, Recorded, FirstPosition;
    if k == 0 {
      NothingYet(prog);
    } else {
      SamePlaces(prog, k - 1);
      LaterStep(prog, Recorded(prog, |prog|), k - 1);
      RecordedStep(prog, k - 1);
      AnswerIsRight(prog, k - 1);
      BytesAgree(prog[k - 1]);
    }
  }

  lemma NothingYet(prog: seq<Instruction>)
    requires AllSound(prog)
    ensures FirstPosition(prog, 0) == 0 && Recorded(prog, 0) == []
    ensures forall log :: LaterPass(prog, log, 0) == LaterState(0, -1, false)
  {
  }
}
