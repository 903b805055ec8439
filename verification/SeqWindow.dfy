/**
  The sliding window of RPCSEC_GSS sequence numbers (section 5.3.3.1 of
  RFC 2203): the highest number seen and a 128-bit mask of the ones just below
  it.  It answers exactly as the full set of accepted numbers would.
 */
module SeqWindow {
  const WINDOW: nat := 128

  // ------------------------------------------------------------ 128-bit masks

  /** An unsigned 128-bit word as its bits, least significant first. */
  type Mask = m: seq<bool> | |m| == WINDOW witness seq(WINDOW, _ => false)

  function Clear(): (m: Mask)
    ensures forall i :: 0 <= i < WINDOW ==> !m[i]
  {
    seq(WINDOW, _ => false)
  }

  /** `m << k` for `k < 128`: the bits shifted past the top are lost. */
  function ShiftLeft(m: Mask, k: nat): Mask
    requires k < WINDOW
  {
    Clear()[..k] + m[..WINDOW - k]
  }

  /** `m | (1 << d)` */
  function SetBit(m: Mask, d: nat): Mask
    requires d < WINDOW
  {
    m[d := true]
  }

  // ------------------------------------------------------------ the full history

  ghost predicate IsMax(h: set<int>, m: int)
  {
    m in h && forall x :: x in h ==> x <= m
  }

  lemma {:induction false} MaxExists(h: set<int>)
    requires h != {}
    ensures exists m :: IsMax(h, m)
  {
    if forall x :: x !in h {
      assert false;
    }
    var x :| x in h;
    if h == {x} {
      assert IsMax(h, x);
    } else {
      var rest := h - {x};
      MaxExists(rest);
      var m :| IsMax(rest, m);
      assert forall y :: y in h ==> y in rest || y == x;
      assert IsMax(h, if x > m then x else m);
    }
  }

  ghost function Max(h: set<int>): (m: int)
    requires h != {}
    ensures IsMax(h, m)
  {
    MaxExists(h);
    var m :| IsMax(h, m);
    m
  }

  /** The answer of a server that remembers every number it accepted. */
  ghost predicate Admissible(h: set<int>, seqNum: int)
  {
    h == {} || seqNum > Max(h) || (Max(h) - seqNum < WINDOW && seqNum !in h)
  }

  /** A number is admissible above all accepted ones, or new and fewer than 128 below each of them. */
  lemma AdmissibleIs(h: set<int>, seqNum: int)
    ensures Admissible(h, seqNum) <==>
            (forall x :: x in h ==> x < seqNum) || (seqNum !in h && forall x :: x in h ==> x - seqNum < 128)
  {
  }

  // ------------------------------------------------------------ the window as a value

  datatype Window = Window(started: bool, max: nat, seen: Mask)
  {
    /** Bit `i` is set exactly when `max - i` was accepted. */
    ghost predicate Represents(h: set<int>) {
      && (started <==> h != {})
      && (started ==> max == Max(h) && forall i :: 0 <= i < WINDOW ==> (seen[i] <==> max - i in h))
    }

    /** `SeqWindow::accept` on the value: the window afterwards and the answer. */
    function Accept(seqNum: nat): (Window, bool)
    {
      if !started then (Window(true, seqNum, SetBit(Clear(), 0)), true)
      else if seqNum > max then
        var shift := seqNum - max;
        var moved := if shift >= WINDOW then Clear() else ShiftLeft(seen, shift);
        (Window(true, seqNum, SetBit(moved, 0)), true)
      else
        var d := max - seqNum;
        if d >= WINDOW || seen[d] then (this, false)
        else (this.(seen := SetBit(seen, d)), true)
    }
  }

  const EMPTY: Window := Window(false, 0, Clear())

  lemma MaxOfAdded(h: set<int>, x: int)
    ensures Max(h + {x}) == if h == {} || x > Max(h) then x else Max(h)
  {
  }

  /** One call of `accept` refines one insertion into the full history. */
  lemma AcceptRefinesHistory(w: Window, h: set<int>, seqNum: nat)
    requires w.Represents(h)
    ensures w.Accept(seqNum).1 <==> Admissible(h, seqNum)
    ensures w.Accept(seqNum).0.Represents(if Admissible(h, seqNum) then h + {seqNum} else h)
  {
    if !w.started {
      assert h + {seqNum} == {seqNum};
    } else if seqNum > w.max {
      MovedUp(w, h, seqNum);
    } else if w.max - seqNum < WINDOW {
      var d := w.max - seqNum;
      assert w.seen[d] <==> w.max - d in h;
      MaxOfAdded(h, seqNum);
    }
  }

  lemma MovedUp(w: Window, h: set<int>, seqNum: nat)
    requires w.Represents(h) && w.started && w.max < seqNum
    ensures w.Accept(seqNum).0.Represents(h + {seqNum})
  {
    var shift := seqNum - w.max;
    var seen := w.Accept(seqNum).0.seen;
    MaxOfAdded(h, seqNum);
    forall i | 0 <= i < WINDOW
      ensures seen[i] <==> seqNum - i in h + {seqNum}
    {
      if shift <= i {
        assert w.seen[i - shift] <==> w.max - (i - shift) in h;
      }
    }
  }

  // ------------------------------------------------------------ whole runs

  function Answers(w: Window, requests: seq<nat>): seq<bool>
    decreases |requests|
  {
    if requests == [] then []
    else
      var (next, ok) := w.Accept(requests[0]);
      [ok] + Answers(next, requests[1..])
  }

  ghost function HistoryAnswers(h: set<int>, requests: seq<nat>): (answers: seq<bool>)
    ensures |answers| == |requests|
    decreases |requests|
  {
    if requests == [] then []
    else
      var ok := Admissible(h, requests[0]);
      [ok] + HistoryAnswers(if ok then h + {requests[0]} else h, requests[1..])
  }

  /** Over every run the window answers like the unbounded history. */
  lemma {:induction false} WindowRefinesHistory(w: Window, h: set<int>, requests: seq<nat>)
    requires w.Represents(h)
    ensures Answers(w, requests) == HistoryAnswers(h, requests)
    decreases |requests|
  {
    if requests != [] {
      var h' := if Admissible(h, requests[0]) then h + {requests[0]} else h;
      AcceptRefinesHistory(w, h, requests[0]);
      WindowRefinesHistory(w.Accept(requests[0]).0, h', requests[1..]);
    }
  }

  /** From the start, a number accepted once in a run is refused every later time. */
  lemma NeverTwice(requests: seq<nat>, i: nat, j: nat)
    requires i < j < |requests| && requests[i] == requests[j]
    ensures |Answers(EMPTY, requests)| == |requests|
    ensures !(Answers(EMPTY, requests)[i] && Answers(EMPTY, requests)[j])
  {
    WindowRefinesHistory(EMPTY, {}, requests);
    NeverTwiceFrom({}, requests, i, j);
  }

  lemma {:induction false} NeverTwiceFrom(h: set<int>, requests: seq<nat>, i: nat, j: nat)
    requires i <= j < |requests| && requests[i] == requests[j]
    ensures i < j ==> !(HistoryAnswers(h, requests)[i] && HistoryAnswers(h, requests)[j])
    ensures requests[j] in h && i == j ==> !HistoryAnswers(h, requests)[j]
    decreases |requests|
  {
    var h' := if Admissible(h, requests[0]) then h + {requests[0]} else h;
    if i > 0 {
      NeverTwiceFrom(h', requests[1..], i - 1, j - 1);
    } else if j > 0 && requests[0] in h' {
      NeverTwiceFrom(h', requests[1..], j - 1, j - 1);
    }
  }

  // ------------------------------------------------------------ the object of the source

  class SequenceWindow {
    var started: bool
    var max: nat
    var seen: Mask
    ghost var history: set<int>

    ghost predicate Valid()
      reads this
    {
      AsValue().Represents(history)
    }

    function AsValue(): Window
      reads this
    {
      Window(started, max, seen)
    }

    constructor ()
      ensures Valid() && history == {}
    {
      started, max, seen := false, 0, Clear();
      history := {};
    }

    /** `SeqWindow::accept` */
    method Accept(seqNum: nat) returns (ok: bool)
      requires Valid()
      modifies this
      ensures Valid()
      ensures ok <==> Admissible(old(history), seqNum)
      ensures history == if ok then old(history) + {seqNum} else old(history)
      ensures AsValue() == old(AsValue()).Accept(seqNum).0
    {
      AcceptRefinesHistory(AsValue(), history, seqNum);
      if !started {
        started, max, seen := true, seqNum, SetBit(Clear(), 0);
        history := history + {seqNum};
        return true;
      }
      if seqNum > max {
        var shift := seqNum - max;
        seen := if shift >= WINDOW then Clear() else ShiftLeft(seen, shift);
        seen := SetBit(seen, 0);
        max := seqNum;
        history := history + {seqNum};
        return true;
      }
      var d := max - seqNum;
      if d >= WINDOW || seen[d] {
        return false;
      }
      seen := SetBit(seen, d);
      history := history + {seqNum};
      return true;
    }
  }
}
