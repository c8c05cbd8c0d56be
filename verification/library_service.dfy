/**
 * services/LibraryService.java: argument checks, not-found errors and
 * delete guards in front of the catalog, with a save after each successful
 * change. Exceptions become an Outcome; the saves become a ghost log of
 * save actions, each recording what was handed to the file layer.
 */
module Service {
  import opened Wrappers
  import opened Text
  import opened Lists
  import opened Books
  import opened Members
  import opened Catalog

  /** Why an IllegalArgumentException or IllegalStateException was thrown. */
  datatype Problem =
    | BlankName
    | BlankTitle
    | BlankAuthor
    | MemberNotFound
    | BookNotFound
    | MemberRejected
    | BookRejected

  /** A returned value, or the exception thrown instead. */
  datatype Outcome<T> =
    | Success(value: T)
    | IllegalArgument(problem: Problem)
    | IllegalState(problem: Problem)

  /** saveBooksData / saveMembersData: the map handed to the file layer. */
  datatype SaveAction =
    | BooksSaved(books: map<int, Book>)
    | MembersSaved(members: map<int, Member>)

  /** The figures getLibraryStats prints. */
  datatype Stats = Stats(
    totalBooks: nat,
    availableBooks: nat,
    borrowedBooks: nat,
    totalMembers: nat,
    activeMembers: nat,
    inactiveMembers: int)

  /** `name == null || name.trim().isEmpty()`. */
  predicate Missing(s: Option<string>)
  {
    s.None? || IsBlank(s.value)
  }

  /** The checks both addNewBook overloads make, title first. */
  function BookArgumentProblem(title: Option<string>, author: Option<string>): (p: Option<Problem>)
    ensures p == None <==> !Missing(title) && !Missing(author)
    ensures Missing(title) ==> p == Some(BlankTitle)
    ensures !Missing(title) && Missing(author) ==> p == Some(BlankAuthor)
  {
    if Missing(title) then Some(BlankTitle)
    else if Missing(author) then Some(BlankAuthor)
    else None
  }

  class LibraryService {
    const library: Library
    /** Every save requested so far, oldest first. */
    ghost var saves: seq<SaveAction>

    ghost predicate Valid()
      reads this, library, library.members.Values
    {
      library.Valid()
    }

    /** LibraryService(library, fileService): wraps an existing catalog; nothing is saved yet. */
    constructor (library: Library)
      requires library.Valid()
      ensures Valid()
      ensures this.library == library && saves == []
    {
      this.library := library;
      saves := [];
    }

    /** The IDs of the members who hold at least one book. */
    ghost function ActiveIds(): set<int>
      reads this, library, library.members.Values
    {
      set k | k in library.members && library.members[k].borrowed != []
    }

    /** The IDs of the members who hold no book. */
    ghost function InactiveIds(): set<int>
      reads this, library, library.members.Values
    {
      set k | k in library.members && library.members[k].borrowed == []
    }

    /**
     * registerMember: a missing or blank name is refused before the catalog
     * is touched; otherwise a member with the trimmed name and a generated
     * ID is added and the members are saved, or IllegalState is raised when
     * that ID is taken.
     */
    method RegisterMember(name: Option<string>, generatedId: int) returns (r: Outcome<int>)
      requires Valid()
      modifies this, library
      ensures Valid()
      ensures Missing(name) ==> r == IllegalArgument(BlankName)
      ensures !Missing(name) ==>
                r == if generatedId in old(library.members) then IllegalState(MemberRejected)
                     else Success(generatedId)
      ensures r.Success? ==> && generatedId in library.members
                             && fresh(library.members[generatedId])
                             && library.members == old(library.members)[generatedId := library.members[generatedId]]
                             && library.members[generatedId].name == Trim(name.value)
                             && library.members[generatedId].borrowed == []
                             && saves == old(saves) + [MembersSaved(library.members)]
      ensures !r.Success? ==> library.members == old(library.members) && saves == old(saves)
      ensures library.books == old(library.books)
      ensures old(library.NoneBorrowed()) ==> library.NoneBorrowed()
    {
      if Missing(name) {
        return IllegalArgument(BlankName);
      }
      var member := new Member(Trim(name.value), generatedId);
      var added := library.AddMember(member);
      if added {
        saves := saves + [MembersSaved(library.members)];
        return Success(member.memberId);
      }
      return IllegalState(MemberRejected);
    }

    /**
     * addNewBook(title, author): refuses a missing or blank title, then
     * author; otherwise files an "Available" book with the trimmed title and
     * author under a generated ISBN, saves the books and returns that ISBN.
     */
    method AddNewBook(title: Option<string>, author: Option<string>, generatedIsbn: int) returns (r: Outcome<int>)
      requires Valid()
      modifies this, library
      ensures Valid()
      ensures BookArgumentProblem(title, author).Some? ==>
                r == IllegalArgument(BookArgumentProblem(title, author).value)
      ensures BookArgumentProblem(title, author).None? ==>
                r == if generatedIsbn in old(library.books) then IllegalState(BookRejected)
                     else Success(generatedIsbn)
      ensures r.Success? ==> && generatedIsbn in library.books
                             && fresh(library.books[generatedIsbn])
                             && library.books == old(library.books)[generatedIsbn := library.books[generatedIsbn]]
                             && library.books[generatedIsbn].title == Trim(title.value)
                             && library.books[generatedIsbn].author == Trim(author.value)
                             && library.books[generatedIsbn].status == AVAILABLE
                             && saves == old(saves) + [BooksSaved(library.books)]
      ensures !r.Success? ==> library.books == old(library.books) && saves == old(saves)
      ensures library.members == old(library.members)
      ensures old(library.NoneBorrowed()) ==> library.NoneBorrowed()
    {
      var problem := BookArgumentProblem(title, author);
      if problem.Some? {
        return IllegalArgument(problem.value);
      }
      var book := new Book.WithGeneratedIsbn(Trim(title.value), Trim(author.value), AVAILABLE, generatedIsbn);
      var added := library.AddBook(book);
      if added {
        saves := saves + [BooksSaved(library.books)];
        return Success(book.isbn);
      }
      return IllegalState(BookRejected);
    }

    /**
     * addNewBook(title, author, ISBN): the same checks; the book is built
     * with the four-argument constructor, which discards `isbn`, so the ISBN
     * filed and returned is the generated one, never the caller's.
     */
    method AddNewBookWithIsbn(title: Option<string>, author: Option<string>, isbn: int, generatedIsbn: int)
      returns (r: Outcome<int>)
      requires Valid()
      modifies this, library
      ensures Valid()
      ensures BookArgumentProblem(title, author).Some? ==>
                r == IllegalArgument(BookArgumentProblem(title, author).value)
      ensures BookArgumentProblem(title, author).None? ==>
                r == if generatedIsbn in old(library.books) then IllegalState(BookRejected)
                     else Success(generatedIsbn)
      ensures r.Success? ==> && generatedIsbn in library.books
                             && fresh(library.books[generatedIsbn])
                             && library.books == old(library.books)[generatedIsbn := library.books[generatedIsbn]]
                             && library.books[generatedIsbn].title == Trim(title.value)
                             && library.books[generatedIsbn].author == Trim(author.value)
                             && library.books[generatedIsbn].status == AVAILABLE
                             && saves == old(saves) + [BooksSaved(library.books)]
      ensures !r.Success? ==> library.books == old(library.books) && saves == old(saves)
      ensures library.members == old(library.members)
      ensures old(library.NoneBorrowed()) ==> library.NoneBorrowed()
    {
      var problem := BookArgumentProblem(title, author);
      if problem.Some? {
        return IllegalArgument(problem.value);
      }
      var book := new Book(Trim(title.value), Trim(author.value), isbn, AVAILABLE, generatedIsbn);
      var added := library.AddBook(book);
      if added {
        saves := saves + [BooksSaved(library.books)];
        return Success(book.isbn);
      }
      return IllegalState(BookRejected);
    }

    /**
     * borrowBook: an unknown member, then an unknown book, raises
     * IllegalArgument before the catalog is asked; otherwise the catalog's
     * answer is returned, and both collections are saved when it is true.
     */
    method BorrowBook(memberId: int, isbn: int) returns (r: Outcome<bool>)
      requires Valid()
      modifies this, library.members.Values
      ensures Valid()
      ensures memberId !in library.members ==> r == IllegalArgument(MemberNotFound)
      ensures memberId in library.members && isbn !in library.books ==> r == IllegalArgument(BookNotFound)
      ensures memberId in library.members && isbn in library.books ==>
                r == Success(IsAvailable(library.books[isbn].status)
                             && |old(library.members[memberId].borrowed)| < MAX_BORROWED)
      ensures library.Loans() == if r == Success(true)
                                 then old(library.Loans())[memberId := old(library.Loans()[memberId]) + [library.books[isbn]]]
                                 else old(library.Loans())
      ensures library.Statuses() == old(library.Statuses())
      ensures saves == if r == Success(true)
                       then old(saves) + [BooksSaved(library.books), MembersSaved(library.members)]
                       else old(saves)
      ensures old(library.NoneBorrowed()) ==> library.NoneBorrowed()
    {
      var member := library.FindMember(memberId);
      var book := library.FindBook(isbn);
      if member == null {
        return IllegalArgument(MemberNotFound);
      }
      if book == null {
        return IllegalArgument(BookNotFound);
      }
      var success := library.CheckoutBook(memberId, isbn);
      assert library.books == old(library.books) && library.members == old(library.members);
      if success {
        saves := saves + [BooksSaved(library.books), MembersSaved(library.members)];
      }
      return Success(success);
    }

    /**
     * returnBook: the same not-found errors; otherwise the catalog's answer,
     * true exactly when the member holds that very book object, with both
     * collections saved when it is true.
     */
    method ReturnBook(memberId: int, isbn: int) returns (r: Outcome<bool>)
      requires Valid()
      modifies this, library.members.Values
      ensures Valid()
      ensures memberId !in library.members ==> r == IllegalArgument(MemberNotFound)
      ensures memberId in library.members && isbn !in library.books ==> r == IllegalArgument(BookNotFound)
      ensures memberId in library.members && isbn in library.books ==>
                r == Success(library.books[isbn] in old(library.members[memberId].borrowed))
      ensures library.Loans() == if r == Success(true)
                                 then old(library.Loans())[memberId := RemoveFirst(old(library.Loans()[memberId]), library.books[isbn])]
                                 else old(library.Loans())
      ensures library.Statuses() == old(library.Statuses())
      ensures saves == if r == Success(true)
                       then old(saves) + [BooksSaved(library.books), MembersSaved(library.members)]
                       else old(saves)
      ensures old(library.NoneBorrowed()) ==> library.NoneBorrowed()
    {
      var member := library.FindMember(memberId);
      var book := library.FindBook(isbn);
      if member == null {
        return IllegalArgument(MemberNotFound);
      }
      if book == null {
        return IllegalArgument(BookNotFound);
      }
      var success := library.ReturnBook(memberId, isbn);
      assert library.books == old(library.books) && library.members == old(library.members);
      if success {
        saves := saves + [BooksSaved(library.books), MembersSaved(library.members)];
      }
      return Success(success);
    }

    /**
     * deleteBook: refuses a book whose status is "Borrowed" (ignoring case);
     * otherwise returns what removeBook returns, saving the books on true.
     */
    method DeleteBook(isbn: int) returns (deleted: bool)
      requires Valid()
      modifies this, library
      ensures Valid()
      ensures deleted == (isbn in old(library.books) && !IsBorrowed(old(library.books)[isbn].status))
      ensures library.books == if deleted then old(library.books) - {isbn} else old(library.books)
      ensures library.members == old(library.members)
      ensures saves == if deleted then old(saves) + [BooksSaved(library.books)] else old(saves)
      ensures old(library.NoneBorrowed()) ==> library.NoneBorrowed() && deleted == (isbn in old(library.books))
    {
      var book := library.FindBook(isbn);
      if book != null && IsBorrowed(book.status) {
        return false;
      }
      deleted := library.RemoveBook(isbn);
      if deleted {
        saves := saves + [BooksSaved(library.books)];
      }
    }

    /**
     * removeMember: refuses a member who holds books; otherwise returns what
     * the catalog's removeMember returns, saving the members on true.
     */
    method RemoveMember(memberId: int) returns (removed: bool)
      requires Valid()
      modifies this, library
      ensures Valid()
      ensures removed == (memberId in old(library.members) && old(library.members)[memberId].borrowed == [])
      ensures library.members == if removed then old(library.members) - {memberId} else old(library.members)
      ensures library.books == old(library.books)
      ensures saves == if removed then old(saves) + [MembersSaved(library.members)] else old(saves)
      ensures old(library.NoneBorrowed()) ==> library.NoneBorrowed()
    {
      var member := library.FindMember(memberId);
      if member != null && member.borrowed != [] {
        return false;
      }
      removed := library.RemoveMember(memberId);
      if removed {
        saves := saves + [MembersSaved(library.members)];
      }
    }

    /**
     * saveAllData: saves the books, then the members, and reports success
     * only when both writes succeeded (the outcome of each write is given).
     */
    method SaveAllData(booksWritten: bool, membersWritten: bool) returns (ok: bool)
      requires Valid()
      modifies this
      ensures ok == (booksWritten && membersWritten)
      ensures saves == old(saves) + [BooksSaved(library.books), MembersSaved(library.members)]
    {
      saves := saves + [BooksSaved(library.books)];
      saves := saves + [MembersSaved(library.members)];
      ok := booksWritten && membersWritten;
    }

    /**
     * loadAllData: every loaded book, then every loaded member, goes through
     * addBook / addMember, so the load only adds. An entry already in the
     * catalog keeps its current object; a new key gets one of the loaded
     * objects carrying it; nothing is removed.
     */
    method LoadAllData(loadedBooks: map<int, Book>, loadedMembers: map<int, Member>) returns (ok: bool)
      requires Valid()
      requires forall k :: k in loadedMembers ==> loadedMembers[k].Valid()
      modifies library
      ensures Valid()
      ensures ok
      ensures library.books.Keys == old(library.books).Keys + set k | k in loadedBooks :: loadedBooks[k].isbn
      ensures forall i :: i in old(library.books) ==> library.books[i] == old(library.books)[i]
      ensures forall i :: i in library.books && i !in old(library.books) ==> library.books[i] in loadedBooks.Values
      ensures library.members.Keys == old(library.members).Keys + set k | k in loadedMembers :: loadedMembers[k].memberId
      ensures forall i :: i in old(library.members) ==> library.members[i] == old(library.members)[i]
      ensures forall i :: i in library.members && i !in old(library.members) ==> library.members[i] in loadedMembers.Values
    {
      AddLoadedBooks(loadedBooks);
      AddLoadedMembers(loadedMembers);
      return true;
    }

    /** The first loop of loadAllData: addBook for each loaded book. */
    method AddLoadedBooks(loaded: map<int, Book>)
      requires Valid()
      modifies library
      ensures Valid()
      ensures library.members == old(library.members)
      ensures library.books.Keys == old(library.books).Keys + set k | k in loaded :: loaded[k].isbn
      ensures forall i :: i in old(library.books) ==> library.books[i] == old(library.books)[i]
      ensures forall i :: i in library.books && i !in old(library.books) ==> library.books[i] in loaded.Values
    {
      var pending := loaded.Keys;
      while pending != {}
        invariant pending <= loaded.Keys
        invariant Valid()
        invariant library.members == old(library.members)
        invariant library.books.Keys == old(library.books).Keys + set k | k in loaded.Keys - pending :: loaded[k].isbn
        invariant forall i :: i in old(library.books) ==> library.books[i] == old(library.books)[i]
        invariant forall i :: i in library.books && i !in old(library.books) ==> library.books[i] in loaded.Values
        decreases pending
      {
        var k := Choose(pending);
        ghost var done := loaded.Keys - pending;
        assert (set j | j in done + {k} :: loaded[j].isbn) == (set j | j in done :: loaded[j].isbn) + {loaded[k].isbn};
        assert loaded.Keys - (pending - {k}) == done + {k};
        var added := library.AddBook(loaded[k]);
        pending := pending - {k};
      }
    }

    /** The second loop of loadAllData: addMember for each loaded member. */
    method AddLoadedMembers(loaded: map<int, Member>)
      requires Valid()
      requires forall k :: k in loaded ==> loaded[k].Valid()
      modifies library
      ensures Valid()
      ensures library.books == old(library.books)
      ensures library.members.Keys == old(library.members).Keys + set k | k in loaded :: loaded[k].memberId
      ensures forall i :: i in old(library.members) ==> library.members[i] == old(library.members)[i]
      ensures forall i :: i in library.members && i !in old(library.members) ==> library.members[i] in loaded.Values
    {
      var pending := loaded.Keys;
      while pending != {}
        invariant pending <= loaded.Keys
        invariant Valid()
        invariant library.books == old(library.books)
        invariant library.members.Keys == old(library.members).Keys + set k | k in loaded.Keys - pending :: loaded[k].memberId
        invariant forall i :: i in old(library.members) ==> library.members[i] == old(library.members)[i]
        invariant forall i :: i in library.members && i !in old(library.members) ==> library.members[i] in loaded.Values
        decreases pending
      {
        var k := Choose(pending);
        ghost var done := loaded.Keys - pending;
        assert (set j | j in done + {k} :: loaded[j].memberId) == (set j | j in done :: loaded[j].memberId) + {loaded[k].memberId};
        assert loaded.Keys - (pending - {k}) == done + {k};
        var added := library.AddMember(loaded[k]);
        pending := pending - {k};
      }
    }

    /**
     * getLibraryStats: the catalog's four counts, and the members holding at
     * least one book counted over getAllMembers; "Inactive Members" is the
     * total minus that count, which is the number of members holding none.
     */
    method GetLibraryStats() returns (s: Stats)
      requires Valid()
      ensures s.totalBooks == |library.books| && s.totalMembers == |library.members|
      ensures s.availableBooks == |library.AvailableIsbns()| && s.borrowedBooks == |library.BorrowedIsbns()|
      ensures s.availableBooks + s.borrowedBooks <= s.totalBooks
      ensures s.activeMembers == |ActiveIds()|
      ensures s.inactiveMembers == |InactiveIds()|
    {
      var totalBooks := library.TotalBooks();
      var availableBooks := library.GetAvailableBooksCount();
      var borrowedBooks := library.GetBorrowedBooksCount();
      var totalMembers := library.TotalMembers();
      library.CountsBounded();
      var all := library.GetAllMembers();
      var active := CountHolders(all);
      ActiveCount(all);
      s := Stats(totalBooks, availableBooks, borrowedBooks, totalMembers, active, totalMembers - active);
    }

    /** The members counted over getAllMembers are the active ones, and the rest are the inactive ones. */
    lemma ActiveCount(all: seq<Member>)
      requires Valid()
      requires forall m :: m in all <==> m in library.members.Values
      ensures Holders(all, |all|) == ActiveIds()
      ensures |InactiveIds()| == |library.members| - |ActiveIds()|
    {
      var counted := Holders(all, |all|);
      forall k | k in ActiveIds() ensures k in counted {
        var j := IndexOf(all, library.members[k]);
      }
      forall k | k in counted ensures k in ActiveIds() {
        var j :| 0 <= j < |all| && all[j].borrowed != [] && all[j].memberId == k;
        library.EnrolledIff(all[j]);
      }
      assert ActiveIds() + InactiveIds() == library.members.Keys;
      assert ActiveIds() * InactiveIds() == {};
    }
  }

  /** A string that starts with a character trim keeps is not blank. */
  lemma NotBlank(s: string)
    requires s != [] && !IsTrimmed(s[0])
    ensures !Missing(Some(s))
  {
    BlankIff(s);
  }

  /** The IDs of the members among the first `i` of `all` who hold at least one book. */
  ghost function Holders(all: seq<Member>, i: nat): set<int>
    requires i <= |all|
    reads set j | 0 <= j < i :: all[j]
  {
    set j | 0 <= j < i && all[j].borrowed != [] :: all[j].memberId
  }

  /** The loop of getLibraryStats: counts the members whose borrowed list is not empty. */
  method CountHolders(all: seq<Member>) returns (n: nat)
    requires forall i, j :: 0 <= i < j < |all| ==> all[i].memberId != all[j].memberId
    ensures n == |Holders(all, |all|)|
  {
    n := 0;
    var i := 0;
    while i < |all|
      invariant 0 <= i <= |all|
      invariant n == |Holders(all, i)|
    {
      if all[i].borrowed != [] {
        assert all[i].memberId !in Holders(all, i);
        assert Holders(all, i + 1) == Holders(all, i) + {all[i].memberId};
        n := n + 1;
      } else {
        assert Holders(all, i + 1) == Holders(all, i);
      }
      i := i + 1;
    }
  }

  /**
   * No status is ever written, so a member can check out the same book twice
   * and the book stays "Available" throughout; the book can then be deleted
   * while the member still holds both copies of the reference.
   */
  method DoubleCheckoutThenDelete() returns (first: Outcome<bool>, second: Outcome<bool>, deleted: bool, held: seq<Book>)
    ensures first == Success(true) && second == Success(true)
    ensures |held| == 2 && held[0] == held[1] && IsAvailable(held[0].status)
    ensures deleted
  {
    var service := OneMemberOneBook();
    var library := service.library;
    ghost var dune := library.books[42];
    AvailableIsAvailable();
    first := service.BorrowBook(1, 42);
    assert library.members[1].borrowed == [dune];
    assert library.books[42] == dune && IsAvailable(dune.status);
    second := service.BorrowBook(1, 42);
    held := library.members[1].borrowed;
    assert held == [dune, dune];
    deleted := service.DeleteBook(42);
  }

  /** A fresh service with member 1 registered and book 42 added, neither lent. */
  method OneMemberOneBook() returns (service: LibraryService)
    ensures fresh(service) && fresh(service.library) && fresh(service.library.members.Values)
    ensures service.Valid() && service.library.NoneBorrowed()
    ensures 1 in service.library.members && service.library.members[1].borrowed == []
    ensures 42 in service.library.books && IsAvailable(service.library.books[42].status)
  {
    var library := new Library();
    service := new LibraryService(library);
    assert library.NoneBorrowed();
    NotBlank("Ada");
    var member := service.RegisterMember(Some("Ada"), 1);
    assert member == Success(1);
    NotBlank("Dune");
    NotBlank("Herbert");
    var book := service.AddNewBook(Some("Dune"), Some("Herbert"), 42);
    assert book == Success(42);
  }
}
