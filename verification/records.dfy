/** The three kinds of record the library keeps: books, members and loans. */
module Records {

  /** The nine subject categories a book may be filed under, in menu order. */
  datatype Category =
    | Generalidades
    | Filosofia
    | Religion
    | CienciasSociales
    | FilologiaPsicologia
    | MatematicasCiencias
    | TecnologiaCiencias
    | ArteLiteratura
    | HistoriaGeografia

  /** The category names exactly as the catalog stores them. */
  const Categorias: seq<string> := [
    "Generalidades", "Filosofía", "Religión", "Ciencias sociales y Política", "Filología y psicología",
    "Matemáticas y Ciencias naturales", "Tecnología y ciencias prácticas", "Arte y literatura",
    "Historia y Geografía"
  ]

  /** Zero-based position of a category in the menu. */
  function Position(c: Category): (i: nat)
    ensures i < |Categorias|
  {
    match c
    case Generalidades => 0
    case Filosofia => 1
    case Religion => 2
    case CienciasSociales => 3
    case FilologiaPsicologia => 4
    case MatematicasCiencias => 5
    case TecnologiaCiencias => 6
    case ArteLiteratura => 7
    case HistoriaGeografia => 8
  }

  /** The category selected by menu position `i` (the user types `i + 1`). */
  function CategoryAt(i: nat): (c: Category)
    requires i < |Categorias|
    ensures Position(c) == i
  {
    [Generalidades, Filosofia, Religion, CienciasSociales, FilologiaPsicologia,
     MatematicasCiencias, TecnologiaCiencias, ArteLiteratura, HistoriaGeografia][i]
  }

  function CategoryName(c: Category): (name: string)
  {
    Categorias[Position(c)]
  }

  /** Menu positions and categories are in one-to-one correspondence, and no two
      categories share a name. */
  lemma CategoriesAreTheMenu()
    ensures forall c: Category :: CategoryAt(Position(c)) == c
    ensures forall c: Category, d: Category :: CategoryName(c) == CategoryName(d) ==> c == d
  {
    forall c: Category, d: Category | CategoryName(c) == CategoryName(d)
      ensures c == d
    {
      // the nine names have nine different lengths
      assert |CategoryName(c)| == |CategoryName(d)|;
    }
  }

  const AllCategories: set<Category> := {
    Generalidades, Filosofia, Religion, CienciasSociales, FilologiaPsicologia,
    MatematicasCiencias, TecnologiaCiencias, ArteLiteratura, HistoriaGeografia
  }

  lemma EveryCategoryListed()
    ensures forall c: Category :: c in AllCategories
  {
    forall c: Category
      ensures c in AllCategories
    {
      match c
      case Generalidades =>
      case Filosofia =>
      case Religion =>
      case CienciasSociales =>
      case FilologiaPsicologia =>
      case MatematicasCiencias =>
      case TecnologiaCiencias =>
      case ArteLiteratura =>
      case HistoriaGeografia =>
    }
  }

  /** A catalog entry: title, author, category and ISBN. Books are never edited
      after creation, so the copies held by members and loans are plain values. */
  datatype Book = Book(title: string, author: string, category: Category, isbn: string)

  /** A registered member and the books they currently hold, in borrowing order. */
  datatype Member = Member(name: string, id: string, borrowed: seq<Book>)

  /** An outstanding loan: the member's id and a copy of the borrowed book. */
  datatype Loan = Loan(memberId: string, book: Book)
}
