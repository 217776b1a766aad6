/**
 * The log of instructions that were guessed to be wide in pass 0: a list of
 * 128-entry blocks, which later passes read back with a cursor.
 */
module WideLog {

  import opened Words

  const BLOCK_SIZE := 128

  datatype Outcome = Wide | Narrow | BadOrder

  // ----- the cursor over a plain sequence -----

  ghost predicate Increasing(log: seq<Word>) {
    forall i, j :: 0 <= i < j < |log| ==> log[i] < log[j]
  }

  /** One query. The cursor is the index of the position found last, or -1. */
  function Query(log: seq<Word>, cursor: int, fpos: Word): (r: (Outcome, int))
    requires -1 <= cursor < |log|
    ensures cursor <= r.1 < |log|
  {
    if cursor >= 0 && fpos == log[cursor] then (Wide, cursor)
    else if cursor >= 0 && fpos < log[cursor] then (BadOrder, cursor)
    else if cursor + 1 == |log| then (Narrow, cursor)
    else if fpos > log[cursor + 1] then (BadOrder, cursor)
    else if fpos == log[cursor + 1] then (Wide, cursor + 1)
    else (Narrow, cursor)
  }

  function Queries(log: seq<Word>, cursor: int, qs: seq<Word>): seq<Outcome>
    requires -1 <= cursor < |log|
    decreases |qs|
  {
    if qs == [] then []
    else
      var (outcome, next) := Query(log, cursor, qs[0]);
      [outcome] + Queries(log, next, qs[1..])
  }

  ghost predicate Nondecreasing(qs: seq<Word>) {
    forall i, j :: 0 <= i <= j < |qs| ==> qs[i] <= qs[j]
  }

  /** Every position recorded after the cursor and passed by the queries is one of them. */
  ghost predicate Covered(log: seq<Word>, cursor: int, qs: seq<Word>)
    requires -1 <= cursor < |log|
  {
    forall k :: cursor < k < |log| && qs != [] && log[k] <= qs[|qs| - 1] ==> log[k] in qs
  }

  function Member(log: seq<Word>, fpos: Word): Outcome {
    if fpos in log then Wide else Narrow
  }

  ghost predicate AnswersAreMembership(log: seq<Word>, cursor: int, qs: seq<Word>)
    requires -1 <= cursor < |log|
  {
    var outcomes := Queries(log, cursor, qs);
    |outcomes| == |qs| && forall i :: 0 <= i < |qs| ==> outcomes[i] == Member(log, qs[i])
  }

  /** One query of a sequence that is in order. */
  lemma FirstQuery(log: seq<Word>, cursor: int, qs: seq<Word>)
    requires Increasing(log) && -1 <= cursor < |log| && qs != [] && Nondecreasing(qs)
    requires cursor >= 0 ==> log[cursor] <= qs[0]
    ensures var (outcome, next) := Query(log, cursor, qs[0]);
            && (outcome == BadOrder <==> cursor + 1 < |log| && log[cursor + 1] < qs[0])
            && (outcome == BadOrder ==> !Covered(log, cursor, qs))
            && (outcome != BadOrder ==>
                  && outcome == Member(log, qs[0])
                  && (next >= 0 ==> log[next] <= qs[0])
                  && (Covered(log, cursor, qs) <==> Covered(log, next, qs[1..])))
  {
    var q, rest := qs[0], qs[1..];
    var (outcome, next) := Query(log, cursor, q);
    if outcome == BadOrder {
      var k := cursor + 1;
      assert forall i :: 0 <= i < |qs| ==> qs[0] <= qs[i];
      assert log[k] <= qs[|qs| - 1] && log[k] !in qs;
    } else {
      forall k | next < k < |log| ensures q < log[k] && log[k] in qs <==> log[k] in rest {
        if cursor < k - 1 { assert log[cursor + 1] <= log[k]; }
        assert qs == [q] + rest;
      }
      assert rest != [] ==> rest[|rest| - 1] == qs[|qs| - 1];
    }
  }

  lemma FirstAnswer(log: seq<Word>, cursor: int, qs: seq<Word>)
    requires -1 <= cursor < |log| && qs != []
    ensures var (outcome, next) := Query(log, cursor, qs[0]);
            && (AnswersAreMembership(log, cursor, qs) <==>
                  outcome == Member(log, qs[0]) && AnswersAreMembership(log, next, qs[1..]))
            && (BadOrder in Queries(log, cursor, qs) <==>
                  outcome == BadOrder || BadOrder in Queries(log, next, qs[1..]))
  {
    hide Query, Member;
    var (outcome, next) := Query(log, cursor, qs[0]);
    var all, rest := Queries(log, cursor, qs), Queries(log, next, qs[1..]);
    assert all == [outcome] + rest;
    assert rest == all[1..];
    if |all| == |qs| {
      assert forall i :: 0 <= i < |qs| - 1 ==> rest[i] == all[i + 1] && qs[1..][i] == qs[i + 1];
      assert forall i :: 0 < i < |qs| ==> rest[i - 1] == all[i] && qs[1..][i - 1] == qs[i];
    }
  }

  /**
   * A nondecreasing sequence of queries never meets a bad order, and is
   * answered by membership, exactly when it leaves out no recorded position
   * on its way.
   */
  lemma {:induction false} InOrder(log: seq<Word>, cursor: int, qs: seq<Word>)
    requires Increasing(log) && -1 <= cursor < |log| && Nondecreasing(qs)
    requires cursor >= 0 && qs != [] ==> log[cursor] <= qs[0]
    ensures Covered(log, cursor, qs) <==> BadOrder !in Queries(log, cursor, qs)
    ensures Covered(log, cursor, qs) <==> AnswersAreMembership(log, cursor, qs)
    decreases |qs|
  {
    hide Query, Covered, AnswersAreMembership;
    if qs != [] {
      FirstQuery(log, cursor, qs);
      FirstAnswer(log, cursor, qs);
      var (outcome, next) := Query(log, cursor, qs[0]);
      if outcome != BadOrder { InOrder(log, next, qs[1..]); }
    } else {
      NoQueries(log, cursor);
    }
  }

  lemma NoQueries(log: seq<Word>, cursor: int)
    requires -1 <= cursor < |log|
    ensures Covered(log, cursor, []) && AnswersAreMembership(log, cursor, [])
  {
  }

  /** What the passes after pass 0 rely on: all recorded instructions are asked about again. */
  lemma EveryPositionAsked(log: seq<Word>, qs: seq<Word>)
    requires Increasing(log) && Nondecreasing(qs) && forall k :: 0 <= k < |log| ==> log[k] in qs
    ensures AnswersAreMembership(log, -1, qs) && BadOrder !in Queries(log, -1, qs)
  {
    InOrder(log, -1, qs);
  }

  // ----- the blocks -----

  class Block {
    var next: Block?
    const instrs: array<Word>

    constructor ()
      ensures fresh(instrs) && instrs.Length == BLOCK_SIZE
    {
      instrs := new Word[BLOCK_SIZE];
    }
  }

  class Log {
    var firstBlock: Block?
    var lastBlock: Block?
    // wide_instr_add_at points to entry addAt of the last block, which ends at
    // wide_instr_add_block_end; both are null at first, which is 128 here.
    var addAt: nat
    // wide_instr_read_at points to entry readAt of block readBlock, or is null.
    var readBlock: Block?
    var readAt: nat
    var readNull: bool

    ghost var blocks: seq<Block>
    ghost var log: seq<Word>
    ghost var cursor: int

    /** The blocks are linked in order and all but the last one are full. */
    ghost predicate Linked()
      reads this`firstBlock, this`lastBlock, this`blocks, blocks
    {
      && (firstBlock == null <==> blocks == [])
      && (blocks != [] ==> firstBlock == blocks[0] && lastBlock == blocks[|blocks| - 1])
      && (forall i {:trigger blocks[i].next} :: 0 <= i < |blocks| - 1 ==> blocks[i].next == blocks[i + 1])
      && (forall i :: 0 <= i < |blocks| ==> blocks[i].instrs.Length == BLOCK_SIZE)
      && (forall i, j :: 0 <= i < j < |blocks| ==> blocks[i] != blocks[j] && blocks[i].instrs != blocks[j].instrs)
    }

    /** Entry k of the log is entry k % 128 of block k / 128. */
    ghost predicate Holds()
      reads this`firstBlock, this`lastBlock, this`blocks, this`addAt, this`log, blocks, set b <- blocks :: b.instrs
    {
      && Linked()
      && 0 <= addAt <= BLOCK_SIZE
      && |log| == BLOCK_SIZE * |blocks| - BLOCK_SIZE + addAt
      && forall k :: 0 <= k < |log| ==> log[k] == blocks[k / BLOCK_SIZE].instrs[k % BLOCK_SIZE]
    }

    ghost predicate Valid()
      reads this, blocks, set b <- blocks :: b.instrs
    {
      && Holds() && Increasing(log)
      && (blocks != [] ==> addAt > 0)
      && -1 <= cursor < |log|
      && (readNull <==> cursor == -1)
      && (cursor >= 0 ==> readBlock == blocks[cursor / BLOCK_SIZE] && readAt == cursor % BLOCK_SIZE)
    }

    constructor ()
      ensures Valid() && log == [] && cursor == -1 && blocks == []
    {
      firstBlock, lastBlock, addAt := null, null, BLOCK_SIZE;
      readBlock, readAt, readNull := null, 0, true;
      blocks, log, cursor := [], [], -1;
    }

    lemma Ends()
      requires Holds()
      ensures addAt <= BLOCK_SIZE
      ensures blocks == [] ==> addAt == BLOCK_SIZE && log == []
      ensures blocks != [] ==> lastBlock in blocks && lastBlock.instrs in set b <- blocks :: b.instrs
    {
    }

    /** Room for the next entry. */
    method NewBlock()
      requires Holds() && addAt == BLOCK_SIZE
      modifies this`firstBlock, this`lastBlock, this`addAt, this`blocks, blocks
      ensures Holds() && addAt == 0 && blocks != []
      ensures fresh(lastBlock) && fresh(lastBlock.instrs) && blocks == old(blocks) + [lastBlock]
    {
      var newBlock := new Block();
      if firstBlock == null {
        firstBlock := newBlock;
      } else {
        lastBlock.next := newBlock;
      }
      lastBlock := newBlock;
      addAt := 0;
      blocks := blocks + [newBlock];
    }

    method Append(fpos: Word)
      requires Holds() && blocks != [] && addAt < BLOCK_SIZE
      modifies this`addAt, this`log, lastBlock.instrs
      ensures Holds() && addAt == old(addAt) + 1 && log == old(log) + [fpos]
    {
      lastBlock.instrs[addAt] := fpos;
      addAt := addAt + 1;
      log := log + [fpos];
    }

    /** add_wide_instr_in_pass_1: positions are recorded in strictly increasing order. */
    method Add(fpos: Word)
      requires Valid() && cursor == -1
      requires log != [] ==> log[|log| - 1] < fpos
      modifies this, blocks, set b <- blocks :: b.instrs
      ensures Valid() && cursor == -1 && log == old(log) + [fpos]
      ensures forall b :: b in blocks && b !in old(blocks) ==> fresh(b) && fresh(b.instrs)
    {
      hide Holds, Linked;
      Ends();
      if addAt == BLOCK_SIZE { NewBlock(); }
      Append(fpos);
    }

    /** At the start of a pass. */
    method Rewind()
      requires Valid()
      modifies this`readNull, this`cursor
      ensures Valid() && cursor == -1
    {
      readNull, cursor := true, -1;
    }

    /** Where entry k is, and where the entry after it is. */
    lemma Entry(k: nat)
      requires Valid() && k < |log|
      ensures k / BLOCK_SIZE < |blocks|
      ensures var block, at := blocks[k / BLOCK_SIZE], k % BLOCK_SIZE;
              && at < block.instrs.Length == BLOCK_SIZE && log[k] == block.instrs[at]
              && (k + 1 == |log| <==> block == lastBlock && at + 1 == addAt)
              && (k + 1 < |log| && at + 1 == BLOCK_SIZE ==>
                    && (k + 1) / BLOCK_SIZE < |blocks|
                    && block.next == blocks[(k + 1) / BLOCK_SIZE] && (k + 1) % BLOCK_SIZE == 0)
              && (k + 1 < |log| && at + 1 < BLOCK_SIZE ==>
                    (k + 1) / BLOCK_SIZE == k / BLOCK_SIZE && (k + 1) % BLOCK_SIZE == at + 1)
    {
      var n := k / BLOCK_SIZE;
      assert n < |blocks| - 1 ==> blocks[n].next == blocks[n + 1] && blocks[n] != blocks[|blocks| - 1];
    }

    lemma FirstEntry()
      requires Valid()
      ensures firstBlock == null <==> log == []
      ensures log != [] ==> blocks != [] && firstBlock == blocks[0]
      ensures log != [] ==> !(firstBlock == lastBlock && addAt == 0)
    {
    }

    /** is_wide_instr_in_pass_2 is one query of the cursor over the log. */
    method IsWide(fpos: Word) returns (outcome: Outcome)
      requires Valid()
      modifies this`readBlock, this`readAt, this`readNull, this`cursor
      ensures Valid()
      ensures (outcome, cursor) == Query(log, old(cursor), fpos)
    {
      hide Holds, Linked, Increasing;
      FirstEntry();
      if cursor >= 0 { Entry(cursor); }
      if cursor + 1 < |log| { Entry(cursor + 1); }
      var at: nat;
      if !readNull {
        if fpos == readBlock.instrs[readAt] { return Wide; }
        if fpos <= readBlock.instrs[readAt] { return BadOrder; }
        at := readAt + 1;
      } else {
        if firstBlock == null { return Narrow; }
        readBlock := firstBlock;
        at := 0;
      }
      var block := readBlock;
      if readBlock == lastBlock && at == addAt { return Narrow; }
      if at == BLOCK_SIZE {
        block := readBlock.next;
        at := 0;
      }
      if fpos > block.instrs[at] { return BadOrder; }
      if fpos < block.instrs[at] { return Narrow; }
      readBlock, readAt, readNull := block, at, false;
      cursor := cursor + 1;
      return Wide;
    }
  }
}
