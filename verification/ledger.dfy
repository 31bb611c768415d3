/** Queries and updates over the loan ledger and over a member's list of
    borrowed books. */
module Ledger {
  import opened Outcome
  import opened Records

  /** Some outstanding loan is for a book with this ISBN. */
  ghost predicate Loaned(loans: seq<Loan>, isbn: string)
  {
    exists l :: l in loans && l.book.isbn == isbn
  }

  /** Some outstanding loan pairs this member with this ISBN. */
  ghost predicate HoldsLoan(loans: seq<Loan>, id: string, isbn: string)
  {
    exists l :: l in loans && l.memberId == id && l.book.isbn == isbn
  }

  /** No ISBN is out on more than one loan. */
  ghost predicate OneLoanPerIsbn(loans: seq<Loan>)
  {
    forall i, j :: 0 <= i < j < |loans| ==> loans[i].book.isbn != loans[j].book.isbn
  }

  /** No two books of the list share an ISBN. */
  ghost predicate DistinctIsbns(books: seq<Book>)
  {
    forall i, j :: 0 <= i < j < |books| ==> books[i].isbn != books[j].isbn
  }

  /** The linear scan over the ledger that decides whether an ISBN is out. */
  function IsLoaned(loans: seq<Loan>, isbn: string): (r: bool)
    ensures r <==> Loaned(loans, isbn)
  {
    if |loans| == 0 then
      false
    else if loans[0].book.isbn == isbn then
      true
    else
      assert forall l :: l in loans ==> l == loans[0] || l in loans[1..];
      IsLoaned(loans[1..], isbn)
  }

  /** Position of the first book of the list with this ISBN, if any. */
  function FirstWithIsbn(books: seq<Book>, isbn: string): (r: Option<nat>)
    ensures r.None? <==> forall j :: 0 <= j < |books| ==> books[j].isbn != isbn
    ensures r.Some? ==> r.value < |books| && books[r.value].isbn == isbn
    ensures r.Some? ==> forall j :: 0 <= j < r.value ==> books[j].isbn != isbn
  {
    if |books| == 0 then
      None
    else if books[0].isbn == isbn then
      Some(0)
    else
      match FirstWithIsbn(books[1..], isbn)
      case None => None
      case Some(j) => Some(j + 1)
  }

  /** The ledger without every loan that pairs member `id` with `isbn`. */
  function Discharge(loans: seq<Loan>, id: string, isbn: string): (r: seq<Loan>)
    ensures forall l :: l in r <==> l in loans && !(l.memberId == id && l.book.isbn == isbn)
    ensures |r| <= |loans|
  {
    if |loans| == 0 then
      []
    else
      var rest := Discharge(loans[1..], id, isbn);
      assert forall l :: l in loans <==> l == loans[0] || l in loans[1..];
      if loans[0].memberId == id && loans[0].book.isbn == isbn then rest else [loans[0]] + rest
  }

  /** Discharging keeps the order of the surviving loans: it distributes over
      concatenation. */
  lemma {:induction false} DischargeConcat(a: seq<Loan>, b: seq<Loan>, id: string, isbn: string)
    ensures Discharge(a + b, id, isbn) == Discharge(a, id, isbn) + Discharge(b, id, isbn)
  {
    if |a| == 0 {
      assert a + b == b;
    } else {
      assert (a + b)[1..] == a[1..] + b;
      DischargeConcat(a[1..], b, id, isbn);
    }
  }

  /** A ledger with no loan of `isbn` to `id` is left exactly as it is. */
  lemma {:induction false} DischargeUnrelated(loans: seq<Loan>, id: string, isbn: string)
    requires !HoldsLoan(loans, id, isbn)
    ensures Discharge(loans, id, isbn) == loans
  {
    if |loans| > 0 {
      assert loans[0] in loans;
      assert forall l :: l in loans[1..] ==> l in loans;
      DischargeUnrelated(loans[1..], id, isbn);
      assert loans == [loans[0]] + loans[1..];
    }
  }

  /** Discharging never creates a second loan for an ISBN. */
  lemma {:induction false} DischargeKeepsOneLoanPerIsbn(loans: seq<Loan>, id: string, isbn: string)
    requires OneLoanPerIsbn(loans)
    ensures OneLoanPerIsbn(Discharge(loans, id, isbn))
  {
    if |loans| > 0 {
      var rest := Discharge(loans[1..], id, isbn);
      assert OneLoanPerIsbn(loans[1..]) by {
        forall i, j | 0 <= i < j < |loans[1..]|
          ensures loans[1..][i].book.isbn != loans[1..][j].book.isbn
        {
          assert loans[1..][i] == loans[i + 1] && loans[1..][j] == loans[j + 1];
        }
      }
      DischargeKeepsOneLoanPerIsbn(loans[1..], id, isbn);
      forall l | l in rest
        ensures l.book.isbn != loans[0].book.isbn
      {
        var k :| 0 <= k < |loans[1..]| && loans[1..][k] == l;
        assert loans[k + 1] == l;
      }
    }
  }

  /** Removing one entry keeps the ISBNs of a list distinct, and every entry
      left is an entry that was there. */
  lemma RemoveAtKeepsDistinct(books: seq<Book>, j: nat)
    requires j < |books|
    requires DistinctIsbns(books)
    ensures DistinctIsbns(books[..j] + books[j + 1..])
    ensures forall b :: b in books[..j] + books[j + 1..] ==> b in books && b.isbn != books[j].isbn
  {
    var r := books[..j] + books[j + 1..];
    forall k | 0 <= k < |r|
      ensures r[k] == books[if k < j then k else k + 1]
    {
    }
  }

  /** Removing one entry keeps every entry of a different ISBN. */
  lemma RemoveAtKeepsOthers(books: seq<Book>, j: nat)
    requires j < |books|
    ensures forall b :: b in books && b.isbn != books[j].isbn ==> b in books[..j] + books[j + 1..]
  {
    forall b | b in books && b.isbn != books[j].isbn
      ensures b in books[..j] + books[j + 1..]
    {
      var k :| 0 <= k < |books| && books[k] == b;
      if k < j {
        assert books[..j][k] == b;
      } else {
        assert books[j + 1..][k - j - 1] == b;
      }
    }
  }
}
