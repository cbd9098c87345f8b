/** Queues of process ids in a ring buffer that is filled downwards (cheapos/pidcoda.c). */
module PidQueue {

  const MAX_TASK_NUM: int := 128

  /** Number of cells; one stays free, so that a full queue differs from an empty one. */
  const CELLS: int := MAX_TASK_NUM + 1

  /** The cell `i` places below `top`, going round. */
  ghost function Below(top: int, i: int): (cell: int)
    requires 0 <= top < CELLS && 0 <= i < CELLS
    ensures 0 <= cell < CELLS
  {
    if i <= top then top - i else top - i + CELLS
  }

  /** The `n` elements from cell `top` downwards. */
  ghost function Ring(cells: seq<int>, top: int, n: nat): seq<int>
    requires |cells| == CELLS && 0 <= top < CELLS && n < CELLS
  {
    seq(n, i requires 0 <= i < n => cells[Below(top, i)])
  }

  /** Without its first element the queue starts one cell lower. */
  lemma RingPop(cells: seq<int>, top: int, n: nat)
    requires |cells| == CELLS && 0 <= top < CELLS && 0 < n < CELLS
    ensures Ring(cells, top, n)[0] == cells[top]
    ensures Ring(cells, Below(top, 1), n - 1) == Ring(cells, top, n)[1..]
  {
    forall i | 0 <= i < n - 1 ensures Below(Below(top, 1), i) == Below(top, i + 1) {
    }
  }

  /** The free cell below the last element takes one more. */
  lemma RingInsert(cells: seq<int>, top: int, n: nat, pid: int)
    requires |cells| == CELLS && 0 <= top < CELLS && n + 1 < CELLS
    ensures Ring(cells[Below(top, n) := pid], top, n + 1) == Ring(cells, top, n) + [pid]
  {
    forall i | 0 <= i < n ensures Below(top, i) != Below(top, n) {
    }
  }

  ghost function Distance(fine: int, inizio: int): (n: nat)
    requires 0 <= fine < CELLS && 0 <= inizio < CELLS
    ensures n <= MAX_TASK_NUM
    ensures n == if inizio <= fine then fine - inizio else fine - inizio + CELLS
  {
    (fine - inizio + CELLS) % CELLS
  }

  /** Stepping one cell down, as the program computes it. */
  lemma StepDown(cell: int)
    requires 0 <= cell < CELLS
    ensures (cell - 1 + MAX_TASK_NUM + 1) % (MAX_TASK_NUM + 1) == Below(cell, 1)
  {
  }

  class PidCoda {
    const dato: array<int>
    var inizio: int
    var fine: int

    /** `pidcoda_init`. */
    constructor ()
      ensures Valid() && Contents() == [] && fresh(dato)
    {
      dato := new int[CELLS](_ => 0);
      inizio, fine := MAX_TASK_NUM / 2, MAX_TASK_NUM / 2;
    }

    ghost predicate Valid()
      reads this
    {
      dato.Length == CELLS && 0 <= inizio < CELLS && 0 <= fine < CELLS
    }

    ghost function Size(): (n: nat)
      requires Valid()
      reads this
      ensures n <= MAX_TASK_NUM
    {
      Distance(fine, inizio)
    }

    /** The queue, first element to come out first. */
    ghost function Contents(): (s: seq<int>)
      requires Valid()
      reads this, dato
      ensures |s| == Size()
    {
      Ring(dato[..], fine, Size())
    }

    /** `pidcoda_elements`. */
    method Elements() returns (n: int)
      requires Valid()
      ensures n == |Contents()|
    {
      n := (fine - inizio + MAX_TASK_NUM + 1) % (MAX_TASK_NUM + 1);
    }

    /** `pidcoda_pop`: the first element, or -1 if there is none. */
    method Pop() returns (pid: int)
      requires Valid()
      modifies this
      ensures Valid()
      ensures if old(Contents()) == [] then pid == -1 && Contents() == []
              else pid == old(Contents())[0] && Contents() == old(Contents())[1..]
    {
      var elements := Elements();
      if elements <= 0 {
        return -1;
      }
      hide Ring;
      RingPop(dato[..], fine, elements);
      StepDown(fine);
      pid := dato[fine];
      fine := (fine - 1 + MAX_TASK_NUM + 1) % (MAX_TASK_NUM + 1);
    }

    /** `pidcoda_ins`: appends `pid`, unless the queue is full. */
    method Ins(pid: int) returns (result: int)
      requires Valid()
      modifies this, dato
      ensures Valid()
      ensures if |old(Contents())| < 128 then result == 1 && Contents() == old(Contents()) + [pid]
              else result == -1 && Contents() == old(Contents())
    {
      var elements := Elements();
      if elements >= MAX_TASK_NUM {
        return -1;
      }
      hide Ring;
      RingInsert(dato[..], fine, elements, pid);
      StepDown(inizio);
      assert Below(fine, elements) == inizio;
      ghost var cells := dato[..];
      dato[inizio] := pid;
      assert dato[..] == cells[inizio := pid];
      inizio := (inizio - 1 + MAX_TASK_NUM + 1) % (MAX_TASK_NUM + 1);
      return 1;
    }
  }
}
