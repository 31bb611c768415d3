/** The library's state and its six mutating operations. Every operation is a
    total function: it either reports an error, in which case the caller keeps
    the state it had, or yields the next state. */
module Library {
  import opened Outcome
  import opened Records
  import opened Ledger

  /** The catalog (ISBN to book), the member directory (id to member) and the
      loan ledger, in the order loans were made. */
  datatype State = State(catalog: map<string, Book>, members: map<string, Member>, loans: seq<Loan>)

  /** The state when none of the three data files exists yet. */
  const Empty: State := State(map[], map[], [])

  /** Adds a book under a new ISBN. */
  function AddBook(s: State, isbn: string, title: string, author: string, category: Category): (r: Result<State>)
    ensures r.Err? <==> isbn in s.catalog
    ensures r.Err? ==> r.error == DuplicateKey
    ensures r.Ok? ==> r.value.catalog.Keys == s.catalog.Keys + {isbn}
    ensures r.Ok? ==> r.value.catalog[isbn].isbn == isbn
    ensures r.Ok? ==> r.value.catalog[isbn].title == title && r.value.catalog[isbn].author == author
    ensures r.Ok? ==> r.value.catalog[isbn].category == category
    ensures r.Ok? ==> forall k :: k in s.catalog ==> r.value.catalog[k] == s.catalog[k]
    ensures r.Ok? ==> r.value.members == s.members && r.value.loans == s.loans
  {
    if isbn in s.catalog then
      Err(DuplicateKey)
    else
      Ok(s.(catalog := s.catalog[isbn := Book(title, author, category, isbn)]))
  }

  /** Deletes a book from the catalog; loans and members' lists that copy it are
      not touched. */
  function RemoveBook(s: State, isbn: string): (r: Result<State>)
    ensures r.Err? <==> isbn !in s.catalog
    ensures r.Err? ==> r.error == NotFound
    ensures r.Ok? ==> r.value.catalog.Keys == s.catalog.Keys - {isbn}
    ensures r.Ok? ==> forall k :: k in r.value.catalog ==> r.value.catalog[k] == s.catalog[k]
    ensures r.Ok? ==> r.value.members == s.members && r.value.loans == s.loans
  {
    if isbn !in s.catalog then
      Err(NotFound)
    else
      Ok(s.(catalog := s.catalog - {isbn}))
  }

  /** Registers a member under a new id, holding no books. */
  function Register(s: State, id: string, name: string): (r: Result<State>)
    ensures r.Err? <==> id in s.members
    ensures r.Err? ==> r.error == DuplicateKey
    ensures r.Ok? ==> r.value.members.Keys == s.members.Keys + {id}
    ensures r.Ok? ==> r.value.members[id].borrowed == []
    ensures r.Ok? ==> r.value.members[id].id == id && r.value.members[id].name == name
    ensures r.Ok? ==> forall k :: k in s.members ==> r.value.members[k] == s.members[k]
    ensures r.Ok? ==> r.value.catalog == s.catalog && r.value.loans == s.loans
  {
    if id in s.members then
      Err(DuplicateKey)
    else
      Ok(s.(members := s.members[id := Member(name, id, [])]))
  }

  /** Deletes a member; their loans stay in the ledger. */
  function Deregister(s: State, id: string): (r: Result<State>)
    ensures r.Err? <==> id !in s.members
    ensures r.Err? ==> r.error == NotFound
    ensures r.Ok? ==> r.value.members.Keys == s.members.Keys - {id}
    ensures r.Ok? ==> forall k :: k in r.value.members ==> r.value.members[k] == s.members[k]
    ensures r.Ok? ==> r.value.catalog == s.catalog && r.value.loans == s.loans
  {
    if id !in s.members then
      Err(NotFound)
    else
      Ok(s.(members := s.members - {id}))
  }

  /** Lends the catalog's book `isbn` to member `id`. The checks run in this
      order: unknown member, ISBN already out, ISBN not in the catalog. */
  function Borrow(s: State, id: string, isbn: string): (r: Result<State>)
    ensures r == Err(UnknownMember) <==> id !in s.members
    ensures r == Err(AlreadyLoaned) <==> id in s.members && Loaned(s.loans, isbn)
    ensures r == Err(UnknownBook) <==> id in s.members && !Loaned(s.loans, isbn) && isbn !in s.catalog
    ensures r.Ok? <==> id in s.members && !Loaned(s.loans, isbn) && isbn in s.catalog
    ensures r.Ok? ==> r.value.catalog == s.catalog
    ensures r.Ok? ==> r.value.loans == s.loans + [Loan(id, s.catalog[isbn])]
    ensures r.Ok? ==> r.value.members.Keys == s.members.Keys
    ensures r.Ok? ==> r.value.members[id].borrowed == s.members[id].borrowed + [s.catalog[isbn]]
    ensures r.Ok? ==> r.value.members[id].name == s.members[id].name && r.value.members[id].id == s.members[id].id
    ensures r.Ok? ==> forall k :: k in s.members && k != id ==> r.value.members[k] == s.members[k]
  {
    if id !in s.members then
      Err(UnknownMember)
    else if IsLoaned(s.loans, isbn) then
      Err(AlreadyLoaned)
    else if isbn !in s.catalog then
      Err(UnknownBook)
    else
      var book := s.catalog[isbn];
      var m := s.members[id];
      Ok(s.(members := s.members[id := m.(borrowed := m.borrowed + [book])],
            loans := s.loans + [Loan(id, book)]))
  }

  /** Takes back the book `isbn` from member `id`: the first matching entry of
      the member's list goes, and so does every loan of that ISBN to that member. */
  function Return(s: State, id: string, isbn: string): (r: Result<State>)
    ensures r == Err(UnknownMember) <==> id !in s.members
    ensures r == Err(NotBorrowed) <==>
      id in s.members && forall j :: 0 <= j < |s.members[id].borrowed| ==> s.members[id].borrowed[j].isbn != isbn
    ensures r.Ok? <==>
      id in s.members && exists j :: 0 <= j < |s.members[id].borrowed| && s.members[id].borrowed[j].isbn == isbn
    ensures r.Ok? ==> r.value.catalog == s.catalog
    ensures r.Ok? ==> r.value.members.Keys == s.members.Keys
    ensures r.Ok? ==> forall k :: k in s.members && k != id ==> r.value.members[k] == s.members[k]
    ensures r.Ok? ==> r.value.members[id].name == s.members[id].name && r.value.members[id].id == s.members[id].id
    ensures r.Ok? ==>
      var b := s.members[id].borrowed;
      exists j :: 0 <= j < |b| && b[j].isbn == isbn && (forall i :: 0 <= i < j ==> b[i].isbn != isbn)
        && r.value.members[id].borrowed == b[..j] + b[j + 1..]
    ensures r.Ok? ==> forall l :: l in r.value.loans <==> l in s.loans && !(l.memberId == id && l.book.isbn == isbn)
    ensures r.Ok? ==> r.value.loans == Discharge(s.loans, id, isbn)
  {
    if id !in s.members then
      Err(UnknownMember)
    else
      var m := s.members[id];
      match FirstWithIsbn(m.borrowed, isbn)
      case None => Err(NotBorrowed)
      case Some(j) =>
        Ok(s.(members := s.members[id := m.(borrowed := m.borrowed[..j] + m.borrowed[j + 1..])],
              loans := Discharge(s.loans, id, isbn)))
  }

  /** One request from the menu, with the values read from the keyboard. */
  datatype Op =
    | AddBookOp(isbn: string, title: string, author: string, category: Category)
    | RemoveBookOp(isbn: string)
    | RegisterOp(id: string, name: string)
    | DeregisterOp(id: string)
    | BorrowOp(id: string, isbn: string)
    | ReturnOp(id: string, isbn: string)

  function Apply(s: State, op: Op): (r: Result<State>)
  {
    match op
    case AddBookOp(isbn, title, author, category) => AddBook(s, isbn, title, author, category)
    case RemoveBookOp(isbn) => RemoveBook(s, isbn)
    case RegisterOp(id, name) => Register(s, id, name)
    case DeregisterOp(id) => Deregister(s, id)
    case BorrowOp(id, isbn) => Borrow(s, id, isbn)
    case ReturnOp(id, isbn) => Return(s, id, isbn)
  }

  /** The state after one request: a failed request changes nothing. */
  function Step(s: State, op: Op): (t: State)
    ensures t == s <==> Apply(s, op).Err?
  {
    match Apply(s, op)
    case Ok(t) => SuccessChangesState(s, op); t
    case Err(_) => s
  }

  /** Every successful request leaves a visible trace: a key added or dropped,
      a loan added, or a book taken off a member's list. */
  lemma SuccessChangesState(s: State, op: Op)
    requires Apply(s, op).Ok?
    ensures Apply(s, op).value != s
  {
    var t := Apply(s, op).value;
    match op
    case AddBookOp(isbn, _, _, _) =>
      assert isbn in t.catalog && isbn !in s.catalog;
    case RemoveBookOp(isbn) =>
      assert isbn in s.catalog && isbn !in t.catalog;
    case RegisterOp(id, _) =>
      assert id in t.members && id !in s.members;
    case DeregisterOp(id) =>
      assert id in s.members && id !in t.members;
    case BorrowOp(_, _) =>
      assert |t.loans| == |s.loans| + 1;
    case ReturnOp(id, isbn) =>
      var b := s.members[id].borrowed;
      var j :| 0 <= j < |b| && b[j].isbn == isbn && (forall i :: 0 <= i < j ==> b[i].isbn != isbn)
        && t.members[id].borrowed == b[..j] + b[j + 1..];
      assert |t.members[id].borrowed| == |b| - 1;
  }

  /** The state after a session of requests. */
  function Run(s: State, ops: seq<Op>): (t: State)
    decreases |ops|
  {
    if |ops| == 0 then s else Run(Step(s, ops[0]), ops[1..])
  }
}
