/** The consistency the six operations keep between catalog, members and
    ledger, starting from the empty library. */
module Invariants {
  import opened Outcome
  import opened Records
  import opened Ledger
  import opened Library

  /** Every catalog entry carries its own key as ISBN. */
  ghost predicate CatalogKeyed(s: State)
  {
    forall k :: k in s.catalog ==> s.catalog[k].isbn == k
  }

  /** Every member record carries its own key as id. */
  ghost predicate MembersKeyed(s: State)
  {
    forall id :: id in s.members ==> s.members[id].id == id
  }

  /** Each registered member holds distinct ISBNs, and each book they hold is
      backed by a loan of that ISBN to them. */
  ghost predicate BorrowedBacked(s: State)
  {
    forall id :: id in s.members ==>
      && DistinctIsbns(s.members[id].borrowed)
      && forall b :: b in s.members[id].borrowed ==> HoldsLoan(s.loans, id, b.isbn)
  }

  ghost predicate Inv(s: State)
  {
    CatalogKeyed(s) && MembersKeyed(s) && OneLoanPerIsbn(s.loans) && BorrowedBacked(s)
  }

  lemma EmptyInv()
    ensures Inv(Empty)
  {
  }

  lemma AddBookKeepsInv(s: State, isbn: string, title: string, author: string, category: Category)
    requires Inv(s)
    ensures Inv(Step(s, AddBookOp(isbn, title, author, category)))
  {
  }

  lemma RemoveBookKeepsInv(s: State, isbn: string)
    requires Inv(s)
    ensures Inv(Step(s, RemoveBookOp(isbn)))
  {
  }

  lemma RegisterKeepsInv(s: State, id: string, name: string)
    requires Inv(s)
    ensures Inv(Step(s, RegisterOp(id, name)))
  {
  }

  lemma DeregisterKeepsInv(s: State, id: string)
    requires Inv(s)
    ensures Inv(Step(s, DeregisterOp(id)))
  {
  }

  lemma BorrowKeepsInv(s: State, id: string, isbn: string)
    requires Inv(s)
    ensures Inv(Step(s, BorrowOp(id, isbn)))
  {
    var r := Borrow(s, id, isbn);
    if r.Ok? {
      var t := r.value;
      var book := s.catalog[isbn];
      assert book.isbn == isbn;
      assert OneLoanPerIsbn(t.loans) by {
        forall i, j | 0 <= i < j < |t.loans|
          ensures t.loans[i].book.isbn != t.loans[j].book.isbn
        {
          if j == |s.loans| {
            assert t.loans[i] in s.loans;
          } else {
            assert t.loans[i] == s.loans[i] && t.loans[j] == s.loans[j];
          }
        }
      }
      forall k | k in t.members
        ensures DistinctIsbns(t.members[k].borrowed)
        ensures forall b :: b in t.members[k].borrowed ==> HoldsLoan(t.loans, k, b.isbn)
      {
        var old_ := s.members[k].borrowed;
        forall b | b in old_
          ensures HoldsLoan(t.loans, k, b.isbn)
        {
          var l :| l in s.loans && l.memberId == k && l.book.isbn == b.isbn;
          assert l in t.loans;
        }
        if k == id {
          var nb := t.members[k].borrowed;
          assert nb == old_ + [book];
          forall i, j | 0 <= i < j < |nb|
            ensures nb[i].isbn != nb[j].isbn
          {
            if j == |old_| {
              assert nb[i] in old_;
              assert HoldsLoan(s.loans, k, nb[i].isbn);
            }
          }
          assert Loan(id, book) in t.loans;
        }
      }
    }
  }

  lemma ReturnKeepsInv(s: State, id: string, isbn: string)
    requires Inv(s)
    ensures Inv(Step(s, ReturnOp(id, isbn)))
  {
    var r := Return(s, id, isbn);
    if r.Ok? {
      var t := r.value;
      var b := s.members[id].borrowed;
      var j :| 0 <= j < |b| && b[j].isbn == isbn && (forall i :: 0 <= i < j ==> b[i].isbn != isbn)
        && t.members[id].borrowed == b[..j] + b[j + 1..];
      DischargeKeepsOneLoanPerIsbn(s.loans, id, isbn);
      ReturnKeepsBacked(s, t, id, isbn, j);
    }
  }

  /** The borrowed-list half of the invariant after a return, stated over the
      shape of the returned state. */
  lemma ReturnKeepsBacked(s: State, t: State, id: string, isbn: string, j: nat)
    requires BorrowedBacked(s) && id in s.members
    requires j < |s.members[id].borrowed| && s.members[id].borrowed[j].isbn == isbn
    requires t.members.Keys == s.members.Keys
    requires forall k :: k in s.members && k != id ==> t.members[k] == s.members[k]
    requires t.members[id].borrowed == s.members[id].borrowed[..j] + s.members[id].borrowed[j + 1..]
    requires t.loans == Discharge(s.loans, id, isbn)
    ensures BorrowedBacked(t)
  {
    var b := s.members[id].borrowed;
    RemoveAtKeepsDistinct(b, j);
    forall k | k in t.members
      ensures DistinctIsbns(t.members[k].borrowed)
      ensures forall x :: x in t.members[k].borrowed ==> HoldsLoan(t.loans, k, x.isbn)
    {
      if k == id {
        ReturnedMemberBacked(s, t, id, isbn, b[..j] + b[j + 1..]);
      } else {
        OtherMemberBacked(s, t, k, id, isbn);
      }
    }
  }

  lemma ReturnedMemberBacked(s: State, t: State, id: string, isbn: string, rest: seq<Book>)
    requires BorrowedBacked(s) && id in s.members
    requires t.loans == Discharge(s.loans, id, isbn)
    requires forall x :: x in rest ==> x in s.members[id].borrowed && x.isbn != isbn
    ensures forall x :: x in rest ==> HoldsLoan(t.loans, id, x.isbn)
  {
    forall x | x in rest
      ensures HoldsLoan(t.loans, id, x.isbn)
    {
      var l :| l in s.loans && l.memberId == id && l.book.isbn == x.isbn;
      assert l in t.loans;
    }
  }

  lemma OtherMemberBacked(s: State, t: State, k: string, id: string, isbn: string)
    requires BorrowedBacked(s) && k in s.members && k != id
    requires t.loans == Discharge(s.loans, id, isbn)
    ensures forall x :: x in s.members[k].borrowed ==> HoldsLoan(t.loans, k, x.isbn)
  {
    forall x | x in s.members[k].borrowed
      ensures HoldsLoan(t.loans, k, x.isbn)
    {
      var l :| l in s.loans && l.memberId == k && l.book.isbn == x.isbn;
      assert l in t.loans;
    }
  }

  lemma StepKeepsInv(s: State, op: Op)
    requires Inv(s)
    ensures Inv(Step(s, op))
  {
    match op
    case AddBookOp(isbn, title, author, category) => AddBookKeepsInv(s, isbn, title, author, category);
    case RemoveBookOp(isbn) => RemoveBookKeepsInv(s, isbn);
    case RegisterOp(id, name) => RegisterKeepsInv(s, id, name);
    case DeregisterOp(id) => DeregisterKeepsInv(s, id);
    case BorrowOp(id, isbn) => BorrowKeepsInv(s, id, isbn);
    case ReturnOp(id, isbn) => ReturnKeepsInv(s, id, isbn);
  }

  lemma {:induction false} RunKeepsInv(s: State, ops: seq<Op>)
    requires Inv(s)
    ensures Inv(Run(s, ops))
    decreases |ops|
  {
    if |ops| > 0 {
      StepKeepsInv(s, ops[0]);
      RunKeepsInv(Step(s, ops[0]), ops[1..]);
    }
  }

  /** Whatever the session, starting from no data files: at most one loan per
      ISBN, and every book a member holds is backed by their loan. */
  lemma InvariantFromEmpty(ops: seq<Op>)
    ensures OneLoanPerIsbn(Run(Empty, ops).loans)
    ensures BorrowedBacked(Run(Empty, ops))
    ensures CatalogKeyed(Run(Empty, ops)) && MembersKeyed(Run(Empty, ops))
  {
    EmptyInv();
    RunKeepsInv(Empty, ops);
  }

  /** After a successful borrow the ISBN counts as out, on a loan to the borrower. */
  lemma BorrowMarksLoaned(s: State, id: string, isbn: string)
    requires CatalogKeyed(s)
    requires Borrow(s, id, isbn).Ok?
    ensures IsLoaned(Borrow(s, id, isbn).value.loans, isbn)
    ensures HoldsLoan(Borrow(s, id, isbn).value.loans, id, isbn)
    ensures FirstWithIsbn(Borrow(s, id, isbn).value.members[id].borrowed, isbn).Some?
  {
    var t := Borrow(s, id, isbn).value;
    assert t.loans[|s.loans|] == Loan(id, s.catalog[isbn]);
    assert t.members[id].borrowed[|s.members[id].borrowed|] == s.catalog[isbn];
  }

  /** Once a book is out, a second borrow of it by any registered member fails
      with AlreadyLoaned and leaves the ledger as it is. */
  lemma SecondBorrowFails(s: State, id: string, other: string, isbn: string)
    requires CatalogKeyed(s)
    requires Borrow(s, id, isbn).Ok?
    requires other in Borrow(s, id, isbn).value.members
    ensures Borrow(Borrow(s, id, isbn).value, other, isbn) == Err(AlreadyLoaned)
  {
    BorrowMarksLoaned(s, id, isbn);
  }

  /** Returning a book the member does not hold on loan fails with NotBorrowed. */
  lemma ReturnWithoutLoanFails(s: State, id: string, isbn: string)
    requires Inv(s)
    requires id in s.members && !HoldsLoan(s.loans, id, isbn)
    ensures Return(s, id, isbn) == Err(NotBorrowed)
  {
    var b := s.members[id].borrowed;
    forall j | 0 <= j < |b|
      ensures b[j].isbn != isbn
    {
      assert b[j] in b;
    }
  }

  /** Borrowing and immediately returning the same book restores the ledger
      exactly, provided the catalog entry carries its own ISBN. */
  lemma BorrowReturnRestoresLedger(s: State, id: string, isbn: string)
    requires CatalogKeyed(s)
    requires Borrow(s, id, isbn).Ok?
    ensures Return(Borrow(s, id, isbn).value, id, isbn).Ok?
    ensures Return(Borrow(s, id, isbn).value, id, isbn).value.loans == s.loans
  {
    var t := Borrow(s, id, isbn).value;
    BorrowMarksLoaned(s, id, isbn);
    var u := Return(t, id, isbn);
    assert !HoldsLoan(s.loans, id, isbn);
    DischargeUnrelated(s.loans, id, isbn);
    DischargeConcat(s.loans, [Loan(id, s.catalog[isbn])], id, isbn);
    assert Discharge([Loan(id, s.catalog[isbn])], id, isbn) == [];
  }

  /** Under the invariant, a member holds no book of an ISBN that is not on loan. */
  lemma UnloanedIsNotHeld(s: State, id: string, isbn: string)
    requires Inv(s)
    requires id in s.members && !Loaned(s.loans, isbn)
    ensures forall j :: 0 <= j < |s.members[id].borrowed| ==> s.members[id].borrowed[j].isbn != isbn
  {
    var bs := s.members[id].borrowed;
    forall j | 0 <= j < |bs|
      ensures bs[j].isbn != isbn
    {
      assert bs[j] in bs;
      assert HoldsLoan(s.loans, id, bs[j].isbn);
    }
  }

  /** Under the invariant, borrowing and immediately returning the same book
      gives back the very state it started from. */
  lemma BorrowReturnRoundTrip(s: State, id: string, isbn: string)
    requires Inv(s)
    requires Borrow(s, id, isbn).Ok?
    ensures Return(Borrow(s, id, isbn).value, id, isbn) == Ok(s)
  {
    BorrowReturnRestoresLedger(s, id, isbn);
    UnloanedIsNotHeld(s, id, isbn);
    ReturnUndoesBorrow(s, id, isbn);
  }

  /** Borrow then return restores the state when the member held no book of
      that ISBN and every catalog entry carries its own ISBN. */
  lemma ReturnUndoesBorrow(s: State, id: string, isbn: string)
    requires CatalogKeyed(s)
    requires Borrow(s, id, isbn).Ok?
    requires forall j :: 0 <= j < |s.members[id].borrowed| ==> s.members[id].borrowed[j].isbn != isbn
    ensures Return(Borrow(s, id, isbn).value, id, isbn) == Ok(s)
  {
    BorrowReturnRestoresLedger(s, id, isbn);
    var t := Borrow(s, id, isbn).value;
    var m := s.members[id];
    var nb := m.borrowed + [s.catalog[isbn]];
    assert t.members == s.members[id := m.(borrowed := nb)];
    assert nb[|m.borrowed|].isbn == isbn;
    assert FirstWithIsbn(nb, isbn) == Some(|m.borrowed|);
    assert nb[..|m.borrowed|] + nb[|m.borrowed| + 1..] == m.borrowed;
    assert t.members[id := m] == s.members;
  }
}
