/** Backfill and billing together: an approval, by the office or by the workflow, opens a window
    and asks for the request's retroactive invoice, at once or through a queue. */
module BackfillBilling {
  import opened Results
  import Backfill
  import Billing
  import BillingSafety

  datatype Office = Office(rows: Backfill.Rows, books: Billing.Books)

  const EMPTY := Office(Backfill.EMPTY, BillingSafety.EMPTY)

  datatype Move =
    | Request(call: Backfill.Call, fee: Option<real>, now: int)
    | Queued(id: nat, fee: Option<real>, now: int)
    | Ledger(entry: BillingSafety.Call)

  /** The request whose window a call of the backfill side opens. */
  function Approves(call: Backfill.Call): Option<nat> {
    match call
    case CallApprove(id) => Some(id)
    case CallComplete(id) => Some(id)
    case _ => None
  }

  /** What a move asks of billing. A queued invoice is one that an approval put off; without a
      fee none is made, as when it is put off or cannot be estimated. */
  ghost function Asks(o: Office, name: nat -> string, move: Move): seq<BillingSafety.Call> {
    match move
    case Request(call, fee, now) =>
      if Approves(call).Some? && Backfill.Step(o.rows, call).1.Opened?
      then [BillingSafety.CallRetroactive(name(Approves(call).value), fee, now)] else []
    case Queued(id, fee, now) =>
      if Backfill.HasWindow(o.rows, id) then [BillingSafety.CallRetroactive(name(id), fee, now)] else []
    case Ledger(entry) => if entry.CallRetroactive? then [] else [entry]
  }

  function RowsAfter(rows: Backfill.Rows, move: Move): Backfill.Rows {
    if move.Request? then Backfill.Step(rows, move.call).0 else rows
  }

  ghost function Step(o: Office, name: nat -> string, move: Move): Office {
    Office(RowsAfter(o.rows, move), BillingSafety.Run(o.books, Asks(o, name, move)))
  }

  ghost function Run(o: Office, name: nat -> string, moves: seq<Move>): Office
    decreases |moves|
  {
    if moves == [] then o else Run(Step(o, name, moves[0]), name, moves[1..])
  }

  /** No request is billed that was not given a window. */
  ghost predicate BilledHaveWindows(o: Office, name: nat -> string) {
    forall i :: 0 <= i < |o.books.invoices| && o.books.invoices[i].backfillRequestId.Some? ==>
      exists id: nat :: Backfill.HasWindow(o.rows, id) && o.books.invoices[i].backfillRequestId == Some(name(id))
  }

  ghost predicate Inv(o: Office, name: nat -> string) {
    Backfill.Inv(o.rows) && BillingSafety.Inv(o.books) && BilledHaveWindows(o, name)
  }

  lemma WindowStays(rows: Backfill.Rows, move: Move, id: nat)
    requires Backfill.HasWindow(rows, id)
    ensures Backfill.HasWindow(RowsAfter(rows, move), id)
  {
    if move.Request? {
      var after := Backfill.Step(rows, move.call).0;
      Backfill.SameWindow(rows, after, id);
    }
  }

  lemma WindowOpened(rows: Backfill.Rows, call: Backfill.Call)
    requires Approves(call).Some? && Backfill.Step(rows, call).1.Opened?
    ensures Backfill.HasWindow(Backfill.Step(rows, call).0, Approves(call).value)
  {
    var after := Backfill.Step(rows, call).0;
    assert after.windows[|rows.windows|].requestId == Approves(call).value;
  }

  /** A call on the books bills at most the request it names. */
  lemma StepBills(b: Billing.Books, call: BillingSafety.Call, i: nat)
    requires i < |BillingSafety.Step(b, call).0.invoices|
    requires BillingSafety.Step(b, call).0.invoices[i].backfillRequestId.Some?
    ensures var id := BillingSafety.Step(b, call).0.invoices[i].backfillRequestId;
            (i < |b.invoices| && b.invoices[i].backfillRequestId == id)
            || (call.CallRetroactive? && id == Some(call.requestId))
  {
  }

  lemma RunOne(b: Billing.Books, call: BillingSafety.Call)
    ensures BillingSafety.Run(b, [call]) == BillingSafety.Step(b, call).0
  {
    assert [call][0] == call && [call][1..] == [];
    assert BillingSafety.Run(BillingSafety.Step(b, call).0, []) == BillingSafety.Step(b, call).0;
  }

  lemma OneAsk(o: Office, name: nat -> string, move: Move)
    ensures Asks(o, name, move) == []
            || (|Asks(o, name, move)| == 1
                && Step(o, name, move).books == BillingSafety.Step(o.books, Asks(o, name, move)[0]).0)
  {
    var asks := Asks(o, name, move);
    if asks != [] { RunOne(o.books, asks[0]); }
  }

  lemma AskedHasWindow(o: Office, name: nat -> string, move: Move) returns (id: nat)
    requires Asks(o, name, move) != [] && Asks(o, name, move)[0].CallRetroactive?
    ensures Asks(o, name, move)[0].requestId == name(id) && Backfill.HasWindow(Step(o, name, move).rows, id)
  {
    if move.Request? {
      id := Approves(move.call).value;
      WindowOpened(o.rows, move.call);
    } else {
      id := move.id;
    }
  }

  lemma StepInv(o: Office, name: nat -> string, move: Move)
    requires Inv(o, name)
    ensures Inv(Step(o, name, move), name)
  {
    var after, asks := Step(o, name, move), Asks(o, name, move);
    if move.Request? { Backfill.StepInv(o.rows, move.call); }
    OneAsk(o, name, move);
    if asks != [] { BillingSafety.StepInv(o.books, asks[0]); }
    forall i: nat | i < |after.books.invoices| && after.books.invoices[i].backfillRequestId.Some?
      ensures exists id: nat :: Backfill.HasWindow(after.rows, id) && after.books.invoices[i].backfillRequestId == Some(name(id))
    {
      BilledStep(o, name, move, i);
    }
  }

  lemma BilledStep(o: Office, name: nat -> string, move: Move, i: nat)
    requires Inv(o, name) && i < |Step(o, name, move).books.invoices|
    requires Step(o, name, move).books.invoices[i].backfillRequestId.Some?
    ensures exists id: nat :: Backfill.HasWindow(Step(o, name, move).rows, id)
              && Step(o, name, move).books.invoices[i].backfillRequestId == Some(name(id))
  {
    var after, asks := Step(o, name, move), Asks(o, name, move);
    OneAsk(o, name, move);
    if asks != [] { StepBills(o.books, asks[0], i); }
    if i < |o.books.invoices| && o.books.invoices[i].backfillRequestId == after.books.invoices[i].backfillRequestId {
      var id: nat :| Backfill.HasWindow(o.rows, id) && o.books.invoices[i].backfillRequestId == Some(name(id));
      WindowStays(o.rows, move, id);
    } else {
      var id := AskedHasWindow(o, name, move);
    }
  }

  lemma {:induction false} RunInv(o: Office, name: nat -> string, moves: seq<Move>)
    requires Inv(o, name)
    ensures Inv(Run(o, name, moves), name)
    decreases |moves|
  {
    if moves != [] {
      StepInv(o, name, moves[0]);
      RunInv(Step(o, name, moves[0]), name, moves[1..]);
    }
  }

  /** Everything that the moves asked of billing. */
  ghost function AllAsks(o: Office, name: nat -> string, moves: seq<Move>): seq<BillingSafety.Call>
    decreases |moves|
  {
    if moves == [] then [] else Asks(o, name, moves[0]) + AllAsks(Step(o, name, moves[0]), name, moves[1..])
  }

  lemma {:induction false} RunAppended(b: Billing.Books, x: seq<BillingSafety.Call>, y: seq<BillingSafety.Call>)
    ensures BillingSafety.Run(b, x + y) == BillingSafety.Run(BillingSafety.Run(b, x), y)
    decreases |x|
  {
    if x == [] {
      assert x + y == y;
    } else {
      assert (x + y)[0] == x[0] && (x + y)[1..] == x[1..] + y;
      RunAppended(BillingSafety.Step(b, x[0]).0, x[1..], y);
    }
  }

  /** The books of a joint run are those of a run of billing. */
  lemma {:induction false} BooksOfRun(o: Office, name: nat -> string, moves: seq<Move>)
    ensures Run(o, name, moves).books == BillingSafety.Run(o.books, AllAsks(o, name, moves))
    decreases |moves|
  {
    if moves != [] {
      var next := Step(o, name, moves[0]);
      BooksOfRun(next, name, moves[1..]);
      RunAppended(o.books, Asks(o, name, moves[0]), AllAsks(next, name, moves[1..]));
    }
  }

  /** After any joint run: every billed request has exactly one window, and while there are at
      most a hundred retroactive invoices it has exactly one invoice, however often and by
      whichever path it was asked for. */
  lemma OneWindowOneInvoice(name: nat -> string, moves: seq<Move>, i: nat)
    requires i < |Run(EMPTY, name, moves).books.invoices|
    requires Run(EMPTY, name, moves).books.invoices[i].backfillRequestId.Some?
    ensures var o := Run(EMPTY, name, moves);
            var billed := o.books.invoices[i].backfillRequestId;
            && (exists id: nat :: billed == Some(name(id)) && Backfill.OneWindow(o.rows, id))
            && (Billing.RetroFrom(o.books.invoices, 0) <= Billing.RECENT ==>
                  forall j :: 0 <= j < |o.books.invoices| && o.books.invoices[j].backfillRequestId == billed ==> j == i)
  {
    var o := Run(EMPTY, name, moves);
    RunInv(EMPTY, name, moves);
    var id: nat :| Backfill.HasWindow(o.rows, id) && o.books.invoices[i].backfillRequestId == Some(name(id));
    Backfill.OnlyWindow(o.rows, id);
    if Billing.RetroFrom(o.books.invoices, 0) <= Billing.RECENT {
      BooksOfRun(EMPTY, name, moves);
      forall j: nat | j < |o.books.invoices| && o.books.invoices[j].backfillRequestId == o.books.invoices[i].backfillRequestId
        ensures j == i
      {
        BillingSafety.BilledOnce(AllAsks(EMPTY, name, moves), j, i, name(id));
      }
    }
  }
}
