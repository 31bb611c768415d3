# Biblioteca Digital: lending and inventory model

A Dafny model of the lending and inventory logic of the `Biblioteca` class in
`Sistema_Biblioteca_Digital.py`. The model covers the three collections the class
keeps in memory:

- the catalog (`libros`), which maps an ISBN to a book record with title, author, category and ISBN;
- the member directory (`usuarios`), which maps a member id to a record with name, id and the list of borrowed books (`Libros Prestados`);
- the loan ledger (`prestamos`), an ordered list of loans. Each loan holds a member id and a copy of the borrowed book.

Six operations change these collections: add book, remove book, register member,
deregister member, borrow and return. Search is a read-only query. Each
operation takes the values the menu reads from the keyboard as parameters. It
returns either an error, which is one of the `print("Error: …")` + `return`
paths, or the next state. `Library.Step` keeps the state unchanged on an error.
`Library.Run` plays a whole session. `Library.Empty` is the state that
`cargar_datos` produces when no data file exists.

Modules:

- `Outcome`: the `Option`, `Error` and `Result` types.
- `Text`: lowercasing and substring containment.
- `Records`: the nine categories of `CATEGORIAS`, and the book, member and loan records.
- `Ledger`: scans over the ledger and over a borrowed list.
- `Library`: the state and the six operations.
- `Invariants`: the consistency that every session starting from empty files keeps, and the borrow/return round trip.
- `Search`: the catalog search and the grouping by category.
- `Findings`: the orphaned-loan flaw and a corrected deregistration.
- `Scenario`: a concrete lending session.

One would expect members' borrowed lists and the ledger to mirror each other
in both directions. The code keeps only one direction: every listed book is
backed by a loan. Deregistration breaks the other direction (see Findings). The code appends the very catalog object to the member's list and to
the ledger (lines 102–103). The model copies it by value instead, because books
are never edited after they are created.

## Model

| member | source | states |
|---|---|---|
| Records.Position | Sistema_Biblioteca_Digital.py:11-14 | every category has a place among the nine entries of `CATEGORIAS` |
| Records.CategoryAt | Sistema_Biblioteca_Digital.py:48-50 | the category chosen by menu position `i` sits at position `i` |
| Records.CategoriesAreTheMenu | Sistema_Biblioteca_Digital.py:11-14 | menu positions and categories correspond one to one, and no two categories share a name |
| Text.LowerChar | Sistema_Biblioteca_Digital.py:127-128 | the result is never an ASCII or Latin-1 capital; it is the character itself or the code point 32 up; every character that is not such a capital is kept unchanged |
| Text.Lower | Sistema_Biblioteca_Digital.py:127-128 | `.lower()` keeps the length; at every position the result is no ASCII or Latin-1 capital, is the input character or the code point 32 up, and is the input character whenever that is not a capital |
| Text.LowerIdempotent | Sistema_Biblioteca_Digital.py:127-128 | lowercasing a lowercased string changes nothing |
| Search.Matches | Sistema_Biblioteca_Digital.py:128 | the filter holds exactly when the lowercased query occurs in the lowercased title, author or category name |
| Text.Contains | Sistema_Biblioteca_Digital.py:128 | `q in s` holds exactly when `q` occurs at some position of `s` |
| Ledger.IsLoaned | Sistema_Biblioteca_Digital.py:96 | the `any(...)` scan is true exactly when some loan's book has the ISBN |
| Ledger.FirstWithIsbn | Sistema_Biblioteca_Digital.py:116-118 | finds the first entry with the ISBN, with no earlier match; returns none only when no entry has the ISBN |
| Ledger.Discharge | Sistema_Biblioteca_Digital.py:119 | the filtered ledger holds exactly the loans that do not pair this member with this ISBN |
| Ledger.DischargeConcat | Sistema_Biblioteca_Digital.py:119 | the filter distributes over concatenation, so the surviving loans keep their order |
| Ledger.DischargeUnrelated | Sistema_Biblioteca_Digital.py:119 | a ledger with no loan for this (member, ISBN) pair comes back unchanged |
| Ledger.DischargeKeepsOneLoanPerIsbn | Sistema_Biblioteca_Digital.py:119 | filtering never puts two loans on one ISBN |
| Ledger.RemoveAtKeepsDistinct | Sistema_Biblioteca_Digital.py:118 | removing one entry keeps the ISBNs distinct, and leaves only old entries of other ISBNs |
| Ledger.RemoveAtKeepsOthers | Sistema_Biblioteca_Digital.py:118 | removing one entry keeps every entry of a different ISBN |
| Library.AddBook | Sistema_Biblioteca_Digital.py:35-55 | fails with DuplicateKey exactly when the ISBN is known; otherwise adds exactly one entry, whose ISBN field equals its key, and leaves every other entry, the members and the ledger alone |
| Library.RemoveBook | Sistema_Biblioteca_Digital.py:57-65 | fails with NotFound exactly when the ISBN is absent; otherwise deletes only that key; members and ledger are not touched (no cascade) |
| Library.Register | Sistema_Biblioteca_Digital.py:67-76 | fails with DuplicateKey exactly when the id is known; otherwise adds one member with that id and name and an empty borrowed list, and changes nothing else |
| Library.Deregister | Sistema_Biblioteca_Digital.py:78-86 | fails with NotFound exactly when the id is absent; otherwise deletes only that member; the ledger keeps their loans |
| Library.Borrow | Sistema_Biblioteca_Digital.py:88-106 | errors in the order: unknown member, then ISBN already on loan, then ISBN not in the catalog; on success it appends the catalog record to the member's list and one loan to the ledger, and leaves the catalog and the other members alone |
| Library.Return | Sistema_Biblioteca_Digital.py:108-124 | fails for an unknown member, and with NotBorrowed exactly when no listed book has the ISBN; succeeds exactly when the registered member lists the ISBN; on success it removes only the first matching entry, and the new ledger is the order-keeping filter that drops every loan pairing the member with the ISBN |
| Library.Step | Sistema_Biblioteca_Digital.py:38-124 | the state is unchanged exactly when the request takes an error path (`print` then `return`): every successful request changes the state |
| Library.SuccessChangesState | Sistema_Biblioteca_Digital.py:38-124 | every successful request yields a state different from the one it was applied to (a key added or dropped, a loan appended, or a book taken off the member's list) |
| Invariants.EmptyInv | Sistema_Biblioteca_Digital.py:23-28 | the absent-file start state satisfies the invariant |
| Invariants.AddBookKeepsInv | Sistema_Biblioteca_Digital.py:38-53 | adding a book keeps the invariant |
| Invariants.RemoveBookKeepsInv | Sistema_Biblioteca_Digital.py:60-61 | removing a book keeps the invariant |
| Invariants.RegisterKeepsInv | Sistema_Biblioteca_Digital.py:70-74 | registering keeps the invariant |
| Invariants.DeregisterKeepsInv | Sistema_Biblioteca_Digital.py:81-82 | deregistering keeps the invariant |
| Invariants.BorrowKeepsInv | Sistema_Biblioteca_Digital.py:90-103 | borrowing keeps one loan per ISBN, distinct ISBNs per member, and a loan behind every listed book |
| Invariants.ReturnKeepsInv | Sistema_Biblioteca_Digital.py:110-119 | returning keeps the same three properties |
| Invariants.ReturnKeepsBacked | Sistema_Biblioteca_Digital.py:116-119 | after removing one entry and filtering the ledger, every member still holds distinct ISBNs, each backed by a loan |
| Invariants.ReturnedMemberBacked | Sistema_Biblioteca_Digital.py:118-119 | after a return, the returning member's remaining books still have their loans |
| Invariants.OtherMemberBacked | Sistema_Biblioteca_Digital.py:119 | after a return, the other members' books still have their loans |
| Invariants.StepKeepsInv | Sistema_Biblioteca_Digital.py:35-124 | every request, whether it succeeds or fails, keeps the invariant |
| Invariants.RunKeepsInv | Sistema_Biblioteca_Digital.py:35-124 | every session keeps the invariant |
| Invariants.InvariantFromEmpty | Sistema_Biblioteca_Digital.py:28 | from empty files, every session keeps at most one loan per ISBN; each member's books have distinct ISBNs and each has a loan to that member; keys match record fields |
| Invariants.BorrowMarksLoaned | Sistema_Biblioteca_Digital.py:96-103 | after a successful borrow the ISBN counts as on loan, on a loan to the borrower, and is in the borrower's list |
| Invariants.SecondBorrowFails | Sistema_Biblioteca_Digital.py:96-98 | borrowing a book already lent fails with AlreadyLoaned for any registered member |
| Invariants.ReturnWithoutLoanFails | Sistema_Biblioteca_Digital.py:116-124 | under the invariant, returning a book the member has no loan for fails with NotBorrowed |
| Invariants.BorrowReturnRestoresLedger | Sistema_Biblioteca_Digital.py:102-119 | a borrow followed by the matching return succeeds and restores the ledger exactly |
| Invariants.UnloanedIsNotHeld | Sistema_Biblioteca_Digital.py:96-103 | under the invariant, no member lists a book whose ISBN is not on loan |
| Invariants.BorrowReturnRoundTrip | Sistema_Biblioteca_Digital.py:102-119 | under the invariant, borrow then return gives back the original state, the member's list included |
| Invariants.ReturnUndoesBorrow | Sistema_Biblioteca_Digital.py:102-119 | if every catalog entry carries its own ISBN and the member held no book of the ISBN, return after borrow succeeds and gives back the original state |
| Search.Find | Sistema_Biblioteca_Digital.py:126-128 | the result holds only catalog books, and holds a catalog book exactly when the lowercased query occurs in its lowercased title, author or category |
| Search.SearchList | Sistema_Biblioteca_Digital.py:128 | the scan yields exactly the matching catalog books, one per matching ISBN |
| Search.EmptyQueryFindsAll | Sistema_Biblioteca_Digital.py:127-128 | an empty query returns every catalog book |
| Search.Shelves | Sistema_Biblioteca_Digital.py:133-136 | every category has a shelf, and a shelf holds exactly the catalog books of its category |
| Search.ShelvesPartition | Sistema_Biblioteca_Digital.py:133-136 | every catalog book is on its own category's shelf and on no other |
| Findings.OrphanSurvivesStep | Sistema_Biblioteca_Digital.py:35-124 | no request repairs a loan whose member is gone or no longer lists the book |
| Findings.OrphanSurvivesBorrow | Sistema_Biblioteca_Digital.py:96-103 | a successful borrow leaves an orphaned loan orphaned |
| Findings.OrphanSurvivesReturn | Sistema_Biblioteca_Digital.py:116-119 | a successful return leaves an orphaned loan orphaned |
| Findings.OrphanSurvivesRun | Sistema_Biblioteca_Digital.py:35-124 | an orphaned loan stays orphaned for the rest of any session |
| Findings.OrphanedIsbnIsStuck | Sistema_Biblioteca_Digital.py:96-124 | nobody can borrow or return the ISBN of an orphaned loan |
| Findings.DeregisterStrandsLoan | Sistema_Biblioteca_Digital.py:74-124 | the session add, register, borrow, deregister, re-register leaves the loan orphaned, and both borrow and return of the book fail |
| Findings.DeregisterChecked | Sistema_Biblioteca_Digital.py:78-86 | corrected deregistration: fails with NotFound for an unknown id and with HasLoans exactly when the member still has a loan; succeeds exactly when the member is registered and has no loan, and then deletes only that member |
| Findings.BorrowKeepsMirror | Sistema_Biblioteca_Digital.py:102-103 | borrowing keeps every loan listed by its registered member |
| Findings.ReturnKeepsMirror | Sistema_Biblioteca_Digital.py:116-119 | returning keeps every loan listed by its registered member |
| Findings.StepCheckedKeepsConsistent | Sistema_Biblioteca_Digital.py:35-124 | with the corrected deregistration, every request keeps both directions of the mirror |
| Findings.RunCheckedKeepsConsistent | Sistema_Biblioteca_Digital.py:35-124 | with the corrected deregistration, every session keeps both directions of the mirror |
| Findings.CheckedSessionsStayConsistent | Sistema_Biblioteca_Digital.py:28 | with the corrected deregistration, no session from empty files ever orphans a loan |
| Findings.CheckedDeregisterRefuses | Sistema_Biblioteca_Digital.py:78-86 | on the session that exposes the flaw, the corrected deregistration refuses with HasLoans |
| Scenario.HandOver | Sistema_Biblioteca_Digital.py:88-124 | the lending session: a borrow by an unregistered member fails with UnknownMember; a contested borrow fails with AlreadyLoaned; after the return the second member can borrow |

## Left out

- Console input and output, and the menu loop (`mostrar_menu`, lines 156-202). These are interactive plumbing. Keyboard values are parameters, and each error message is an `Error` value.
- Table rendering through the external `tabulate` library (`mostrar_tabla`, and the printing in `mostrar_todos_libros` and `listar_prestamos`). These are presentation over a foreign library.
- Reading and writing the JSON files (`cargar_datos`, `guardar_datos` and the save calls). They depend on the file system. Only the absent-file default is modelled, as `Library.Empty`. The invariant results hold for sessions that start from it. A hand-edited file may break them.
- The non-atomic pair of saves in borrow and return (lines 104-105 and 120-121). Each operation is one atomic step of the model, so a crash between the two writes is not modelled.
- Turning the typed menu number into a category (`int(...) - 1` at line 50). The model takes a `Category` value, so it leaves out how Python treats any input outside 1–9: "0" to "-8" select a category through negative indexing, while non-numeric input, numbers above nine and numbers below "-8" crash.
- Text.LowerChar: lowercases only ASCII capitals and the Latin-1 capitals U+00C0–U+00DE (except U+00D7). Python's `str.lower` also lowercases every other cased character and can change a string's length; those cases are not modelled.
- Search.Find: returns a set, so it does not state the order and multiplicity of the result. Python lists the matches in catalog insertion order, and lists a record twice when a hand-edited catalog holds it under two keys.
- Search.SearchList: yields the matches in an unspecified order, not in the catalog's insertion order.
- Search.Shelves: groups books into sets rather than lists in insertion order. Hand-edited files can hold a category name outside `CATEGORIAS`, which raises a `KeyError` at line 136. The model cannot represent that, because a category is a `Category` value.
- Python's `list.remove(libro)` at line 118 removes the first element equal to the matched book. That element is always the first one with the ISBN, because any earlier equal element would have matched first. `Library.Return` therefore removes that position.

## Findings

| source | as written | input that shows it | evidently intended | confidence | as-written member | corrected member |
|---|---|---|---|---|---|---|
| Sistema_Biblioteca_Digital.py:78-86 | deregistration deletes the member but leaves their loans in the ledger, and re-registering the id (line 74) starts an empty list | add ISBN1, register U1, borrow (U1, ISBN1), deregister U1, register U1: from then on every borrow of ISBN1 fails at line 96 and every return of it fails at lines 116-124 | a member holding books cannot be deregistered, so every loan stays returnable | high (not executed) | Findings.DeregisterStrandsLoan | Findings.DeregisterChecked |

`Library.Step` keeps the deregistration as written, because it models the program.
`Findings.StepChecked` is the same machine with `Findings.DeregisterChecked`.
`Findings.CheckedSessionsStayConsistent` proves that this machine keeps both
directions of the mirror.
