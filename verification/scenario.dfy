/** The lending session used to illustrate the rules: one book, two members,
    a contested borrow and a hand-over after the return. */
module Scenario {
  import opened Outcome
  import opened Records
  import opened Ledger
  import opened Library

  lemma HandOver()
    ensures
      var s1 := AddBook(Empty, "ISBN1", "T", "A", HistoriaGeografia).value;
      var s2 := Register(s1, "U1", "Ana").value;
      var s3 := Borrow(s2, "U1", "ISBN1").value;
      var s4 := Register(s3, "U2", "Luis").value;
      var s5 := Return(s4, "U1", "ISBN1").value;
      && AddBook(Empty, "ISBN1", "T", "A", HistoriaGeografia).Ok?
      && Register(s1, "U1", "Ana").Ok?
      && Borrow(s2, "U1", "ISBN1").Ok? && IsLoaned(s3.loans, "ISBN1")
      && Borrow(s3, "U2", "ISBN1") == Err(UnknownMember)
      && Register(s3, "U2", "Luis").Ok?
      && Borrow(s4, "U2", "ISBN1") == Err(AlreadyLoaned)
      && Return(s4, "U1", "ISBN1").Ok? && !IsLoaned(s5.loans, "ISBN1")
      && Borrow(s5, "U2", "ISBN1").Ok?
  {
    var book := Book("T", "A", HistoriaGeografia, "ISBN1");
    var s1 := AddBook(Empty, "ISBN1", "T", "A", HistoriaGeografia).value;
    var s2 := Register(s1, "U1", "Ana").value;
    assert s2.catalog["ISBN1"] == book;
    assert IsLoaned(s2.loans, "ISBN1") == false;
    var s3 := Borrow(s2, "U1", "ISBN1").value;
    assert s3.loans == [Loan("U1", book)];
    assert s3.members["U1"].borrowed == [book];
    assert "U2" != "U1" by { assert "U2"[1] != "U1"[1]; }
    var s4 := Register(s3, "U2", "Luis").value;
    assert s4.members["U1"] == s3.members["U1"];
    assert s4.loans == [Loan("U1", book)];
    var s5 := Return(s4, "U1", "ISBN1").value;
    assert s5.loans == [];
    assert s5.catalog == s1.catalog;
  }
}
