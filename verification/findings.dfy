/** Deregistering a member leaves their loans in the ledger. Such a loan can
    never be discharged again, and its ISBN can never be borrowed again. This
    module shows the flaw on the deregistration as written and proves the
    consistency that a deregistration refusing members with loans restores. */
module Findings {
  import opened Outcome
  import opened Records
  import opened Ledger
  import opened Library
  import opened Invariants

  /** A loan whose member is gone, or no longer lists a book of its ISBN. */
  ghost predicate Orphaned(s: State, l: Loan)
  {
    && l in s.loans
    && !(l.memberId in s.members && exists b :: b in s.members[l.memberId].borrowed && b.isbn == l.book.isbn)
  }

  /** The reverse mirror: every loan is listed by its registered member. */
  ghost predicate LoansMirrored(s: State)
  {
    forall l :: l in s.loans ==>
      l.memberId in s.members && exists b :: b in s.members[l.memberId].borrowed && b.isbn == l.book.isbn
  }

  /** No operation ever repairs an orphaned loan. */
  lemma OrphanSurvivesStep(s: State, op: Op, l: Loan)
    requires CatalogKeyed(s)
    requires Orphaned(s, l)
    ensures Orphaned(Step(s, op), l)
  {
    match op
    case AddBookOp(_, _, _, _) =>
    case RemoveBookOp(_) =>
    case RegisterOp(_, _) =>
    case DeregisterOp(_) =>
    case BorrowOp(id, isbn) =>
      if Borrow(s, id, isbn).Ok? {
        OrphanSurvivesBorrow(s, id, isbn, l);
      }
    case ReturnOp(id, isbn) =>
      if Return(s, id, isbn).Ok? {
        OrphanSurvivesReturn(s, id, isbn, l);
      }
  }

  lemma OrphanSurvivesBorrow(s: State, id: string, isbn: string, l: Loan)
    requires CatalogKeyed(s)
    requires Orphaned(s, l)
    requires Borrow(s, id, isbn).Ok?
    ensures Orphaned(Borrow(s, id, isbn).value, l)
  {
    var t := Borrow(s, id, isbn).value;
    assert isbn != l.book.isbn;
    assert s.catalog[isbn].isbn == isbn;
    if l.memberId == id {
      forall b | b in t.members[id].borrowed
        ensures b.isbn != l.book.isbn
      {
        assert b in s.members[id].borrowed || b == s.catalog[isbn];
      }
    }
  }

  lemma OrphanSurvivesReturn(s: State, id: string, isbn: string, l: Loan)
    requires Orphaned(s, l)
    requires Return(s, id, isbn).Ok?
    ensures Orphaned(Return(s, id, isbn).value, l)
  {
    var t := Return(s, id, isbn).value;
    var bs := s.members[id].borrowed;
    var j :| 0 <= j < |bs| && bs[j].isbn == isbn && (forall i :: 0 <= i < j ==> bs[i].isbn != isbn)
      && t.members[id].borrowed == bs[..j] + bs[j + 1..];
    if l.memberId == id {
      assert bs[j] in bs;
      assert l.book.isbn != isbn;
      forall b | b in t.members[id].borrowed
        ensures b.isbn != l.book.isbn
      {
        assert b in bs;
      }
    }
  }

  lemma {:induction false} OrphanSurvivesRun(s: State, ops: seq<Op>, l: Loan)
    requires Inv(s)
    requires Orphaned(s, l)
    ensures Orphaned(Run(s, ops), l)
    decreases |ops|
  {
    if |ops| > 0 {
      OrphanSurvivesStep(s, ops[0], l);
      StepKeepsInv(s, ops[0]);
      OrphanSurvivesRun(Step(s, ops[0]), ops[1..], l);
    }
  }

  /** The ISBN of an orphaned loan can be neither borrowed nor returned by anyone. */
  lemma OrphanedIsbnIsStuck(s: State, l: Loan, id: string)
    requires Inv(s)
    requires Orphaned(s, l)
    ensures id in s.members ==> Borrow(s, id, l.book.isbn) == Err(AlreadyLoaned)
    ensures Return(s, id, l.book.isbn).Err?
  {
    if id in s.members {
      var bs := s.members[id].borrowed;
      forall j | 0 <= j < |bs|
        ensures bs[j].isbn != l.book.isbn
      {
        assert bs[j] in bs;
      }
    }
  }

  /** A concrete session: book and member added, book lent, member deregistered
      and registered again under the same id. The loan is left orphaned, and the
      book can be neither borrowed nor returned. */
  lemma DeregisterStrandsLoan()
    ensures
      var book := Book("T", "A", HistoriaGeografia, "ISBN1");
      var s1 := AddBook(Empty, "ISBN1", "T", "A", HistoriaGeografia).value;
      var s2 := Register(s1, "U1", "Ana").value;
      var s3 := Borrow(s2, "U1", "ISBN1").value;
      var s4 := Deregister(s3, "U1").value;
      var s5 := Register(s4, "U1", "Ana").value;
      && LoansMirrored(s3)
      && Orphaned(s4, Loan("U1", book)) && !LoansMirrored(s4)
      && Orphaned(s5, Loan("U1", book))
      && Borrow(s5, "U1", "ISBN1") == Err(AlreadyLoaned)
      && Return(s5, "U1", "ISBN1") == Err(NotBorrowed)
  {
    var book := Book("T", "A", HistoriaGeografia, "ISBN1");
    var s1 := AddBook(Empty, "ISBN1", "T", "A", HistoriaGeografia).value;
    var s2 := Register(s1, "U1", "Ana").value;
    assert s2.catalog["ISBN1"] == book;
    assert IsLoaned(s2.loans, "ISBN1") == false;
    var s3 := Borrow(s2, "U1", "ISBN1").value;
    assert s3.loans == [Loan("U1", book)];
    assert s3.members["U1"].borrowed == [book];
    var s4 := Deregister(s3, "U1").value;
    var s5 := Register(s4, "U1", "Ana").value;
    assert s5.loans == [Loan("U1", book)];
    assert s5.members["U1"].borrowed == [];
  }

  // ---------------------------------------------------------------------------
  // Corrected deregistration

  /** Deregistration that refuses while the member still holds loans. */
  function DeregisterChecked(s: State, id: string): (r: Result<State>)
    ensures r == Err(NotFound) <==> id !in s.members
    ensures r == Err(HasLoans) <==> id in s.members && exists l :: l in s.loans && l.memberId == id
    ensures r.Ok? <==> id in s.members && !(exists l :: l in s.loans && l.memberId == id)
    ensures r.Ok? ==> r.value.members.Keys == s.members.Keys - {id}
    ensures r.Ok? ==> forall k :: k in r.value.members ==> r.value.members[k] == s.members[k]
    ensures r.Ok? ==> r.value.catalog == s.catalog && r.value.loans == s.loans
  {
    if id !in s.members then
      Err(NotFound)
    else if exists l :: l in s.loans && l.memberId == id then
      Err(HasLoans)
    else
      Ok(s.(members := s.members - {id}))
  }

  /** Step of the corrected machine: only deregistration differs. */
  function StepChecked(s: State, op: Op): (t: State)
  {
    match op
    case DeregisterOp(id) => (match DeregisterChecked(s, id) case Ok(t) => t case Err(_) => s)
    case _ => Step(s, op)
  }

  function RunChecked(s: State, ops: seq<Op>): (t: State)
    decreases |ops|
  {
    if |ops| == 0 then s else RunChecked(StepChecked(s, ops[0]), ops[1..])
  }

  /** The full two-way mirror between members' lists and the ledger. */
  ghost predicate Consistent(s: State)
  {
    Inv(s) && LoansMirrored(s)
  }

  lemma BorrowKeepsMirror(s: State, id: string, isbn: string)
    requires Inv(s) && LoansMirrored(s)
    requires Borrow(s, id, isbn).Ok?
    ensures LoansMirrored(Borrow(s, id, isbn).value)
  {
    var t := Borrow(s, id, isbn).value;
    forall l | l in t.loans
      ensures l.memberId in t.members
      ensures exists b :: b in t.members[l.memberId].borrowed && b.isbn == l.book.isbn
    {
      if l in s.loans {
        var b :| b in s.members[l.memberId].borrowed && b.isbn == l.book.isbn;
        assert b in t.members[l.memberId].borrowed;
      } else {
        assert l == Loan(id, s.catalog[isbn]);
        assert s.catalog[isbn] in t.members[id].borrowed;
      }
    }
  }

  lemma ReturnKeepsMirror(s: State, id: string, isbn: string)
    requires Inv(s) && LoansMirrored(s)
    requires Return(s, id, isbn).Ok?
    ensures LoansMirrored(Return(s, id, isbn).value)
  {
    var t := Return(s, id, isbn).value;
    var bs := s.members[id].borrowed;
    var j :| 0 <= j < |bs| && bs[j].isbn == isbn && (forall i :: 0 <= i < j ==> bs[i].isbn != isbn)
      && t.members[id].borrowed == bs[..j] + bs[j + 1..];
    RemoveAtKeepsOthers(bs, j);
    forall l | l in t.loans
      ensures l.memberId in t.members
      ensures exists b :: b in t.members[l.memberId].borrowed && b.isbn == l.book.isbn
    {
      var b :| b in s.members[l.memberId].borrowed && b.isbn == l.book.isbn;
      assert b in t.members[l.memberId].borrowed;
    }
  }

  lemma StepCheckedKeepsConsistent(s: State, op: Op)
    requires Consistent(s)
    ensures Consistent(StepChecked(s, op))
  {
    StepKeepsInv(s, op);
    match op
    case AddBookOp(_, _, _, _) =>
    case RemoveBookOp(_) =>
    case RegisterOp(id, name) =>
      if Register(s, id, name).Ok? {
        var t := Register(s, id, name).value;
        forall l | l in t.loans
          ensures l.memberId in t.members
          ensures exists b :: b in t.members[l.memberId].borrowed && b.isbn == l.book.isbn
        {
          var b :| b in s.members[l.memberId].borrowed && b.isbn == l.book.isbn;
          assert t.members[l.memberId] == s.members[l.memberId];
        }
      }
    case DeregisterOp(id) =>
      if DeregisterChecked(s, id).Ok? {
        assert DeregisterChecked(s, id) == Deregister(s, id);
        var t := DeregisterChecked(s, id).value;
        forall l | l in t.loans
          ensures l.memberId in t.members
          ensures exists b :: b in t.members[l.memberId].borrowed && b.isbn == l.book.isbn
        {
          var b :| b in s.members[l.memberId].borrowed && b.isbn == l.book.isbn;
          assert t.members[l.memberId] == s.members[l.memberId];
        }
      }
    case BorrowOp(id, isbn) =>
      if Borrow(s, id, isbn).Ok? {
        BorrowKeepsMirror(s, id, isbn);
      }
    case ReturnOp(id, isbn) =>
      if Return(s, id, isbn).Ok? {
        ReturnKeepsMirror(s, id, isbn);
      }
  }

  lemma {:induction false} RunCheckedKeepsConsistent(s: State, ops: seq<Op>)
    requires Consistent(s)
    ensures Consistent(RunChecked(s, ops))
    decreases |ops|
  {
    if |ops| > 0 {
      StepCheckedKeepsConsistent(s, ops[0]);
      RunCheckedKeepsConsistent(StepChecked(s, ops[0]), ops[1..]);
    }
  }

  /** With the corrected deregistration, every session from no data files keeps
      both directions of the mirror, so no loan is ever orphaned. */
  lemma CheckedSessionsStayConsistent(ops: seq<Op>)
    ensures LoansMirrored(RunChecked(Empty, ops))
    ensures forall l :: !Orphaned(RunChecked(Empty, ops), l)
    ensures BorrowedBacked(RunChecked(Empty, ops)) && OneLoanPerIsbn(RunChecked(Empty, ops).loans)
  {
    EmptyInv();
    RunCheckedKeepsConsistent(Empty, ops);
  }

  /** On the session above, the corrected deregistration refuses. */
  lemma CheckedDeregisterRefuses()
    ensures
      var s1 := AddBook(Empty, "ISBN1", "T", "A", HistoriaGeografia).value;
      var s2 := Register(s1, "U1", "Ana").value;
      var s3 := Borrow(s2, "U1", "ISBN1").value;
      DeregisterChecked(s3, "U1") == Err(HasLoans)
  {
    var s1 := AddBook(Empty, "ISBN1", "T", "A", HistoriaGeografia).value;
    var s2 := Register(s1, "U1", "Ana").value;
    assert IsLoaned(s2.loans, "ISBN1") == false;
    var s3 := Borrow(s2, "U1", "ISBN1").value;
    assert s3.loans[0].memberId == "U1";
  }
}
