/**
 * models/Library.java: the in-memory catalog, two maps keyed by identity
 * (ISBN to Book, member ID to Member), with the borrowing rules.
 */
module Catalog {
  import opened Text
  import opened Lists
  import opened Books
  import opened Members

  /** The search test: the lower-cased field contains the lower-cased term. */
  predicate Matches(field: string, term: string)
  {
    Contains(ToLower(field), ToLower(term))
  }

  /** The ISBNs of a list of books. */
  ghost function IsbnsOf(r: seq<Book>): set<int>
  {
    set b | b in r :: b.isbn
  }

  /** No two books of the list share an ISBN. */
  ghost predicate DistinctIsbns(r: seq<Book>)
  {
    forall i, j :: 0 <= i < j < |r| ==> r[i].isbn != r[j].isbn
  }

  /** A list of books without repeated ISBNs has as many ISBNs as entries. */
  lemma {:induction false} DistinctIsbnsCard(r: seq<Book>)
    requires DistinctIsbns(r)
    ensures |IsbnsOf(r)| == |r|
  {
    if r != [] {
      var rest := r[1..];
      assert DistinctIsbns(rest) by {
        forall i, j | 0 <= i < j < |rest| ensures rest[i].isbn != rest[j].isbn {
          assert rest[i] == r[i + 1] && rest[j] == r[j + 1];
        }
      }
      DistinctIsbnsCard(rest);
      assert r[0].isbn !in IsbnsOf(rest) by {
        forall b | b in rest ensures b.isbn != r[0].isbn {
          var j :| 0 <= j < |rest| && rest[j] == b;
          assert r[j + 1] == b;
        }
      }
      assert IsbnsOf(r) == {r[0].isbn} + IsbnsOf(rest) by {
        assert r == [r[0]] + rest;
      }
    }
  }

  class Library {
    var books: map<int, Book>
    var members: map<int, Member>

    /**
     * Every book is filed under its own ISBN and every member under its own ID
     * (addBook and addMember use the entity's key), and every member keeps
     * its borrowing limit.
     */
    ghost predicate Valid()
      reads this, members.Values
    {
      && (forall k :: k in books ==> books[k].isbn == k)
      && (forall k :: k in members ==> members[k].memberId == k && members[k].Valid())
    }

    /** `b` is the book filed under its own ISBN. */
    ghost predicate Filed(b: Book)
      reads this
    {
      b.isbn in books && books[b.isbn] == b
    }

    /** In a valid catalog, the books are exactly the ones filed under their own ISBN. */
    lemma FiledIff(b: Book)
      requires Valid()
      ensures b in books.Values <==> Filed(b)
    {
      if b in books.Values {
        var k := KeyOf(books, b);
      }
    }

    /** `m` is the member filed under its own ID. */
    ghost predicate Enrolled(m: Member)
      reads this
    {
      m.memberId in members && members[m.memberId] == m
    }

    /** In a valid catalog, the members are exactly the ones filed under their own ID. */
    lemma EnrolledIff(m: Member)
      requires Valid()
      ensures m in members.Values <==> Enrolled(m)
    {
      if m in members.Values {
        var k := KeyOf(members, m);
      }
    }

    /** Each member's borrowed list, by member ID. */
    ghost function Loans(): map<int, seq<Book>>
      reads this, members.Values
    {
      map k | k in members :: members[k].borrowed
    }

    /** Each book's status, by ISBN. */
    ghost function Statuses(): map<int, string>
      reads this, books.Values
    {
      map k | k in books :: books[k].status
    }

    /** The ISBNs whose status passes the "Available" test. */
    ghost function AvailableIsbns(): set<int>
      reads this, books.Values
    {
      set k | k in books && IsAvailable(books[k].status)
    }

    /** The ISBNs whose status passes the "Borrowed" test. */
    ghost function BorrowedIsbns(): set<int>
      reads this, books.Values
    {
      set k | k in books && IsBorrowed(books[k].status)
    }

    /** No book's status passes the "Borrowed" test. */
    ghost predicate NoneBorrowed()
      reads this, books.Values
    {
      forall k :: k in books ==> !IsBorrowed(books[k].status)
    }

    constructor ()
      ensures Valid()
      ensures books == map[] && members == map[]
    {
      books := map[];
      members := map[];
    }

    // ==================== books ====================

    /** addBook: refuses null and an ISBN already present; otherwise files the book under its ISBN. */
    method AddBook(book: Book?) returns (ok: bool)
      requires Valid()
      modifies this
      ensures Valid()
      ensures ok == (book != null && book.isbn !in old(books))
      ensures books == if ok then old(books)[book.isbn := book] else old(books)
      ensures members == old(members)
    {
      if book == null {
        return false;
      }
      if book.isbn in books {
        return false;
      }
      books := books[book.isbn := book];
      return true;
    }

    /** removeBook: removes the entry for `isbn` if there is one, with no check that it is borrowed. */
    method RemoveBook(isbn: int) returns (ok: bool)
      requires Valid()
      modifies this
      ensures Valid()
      ensures ok == (isbn in old(books))
      ensures books == old(books) - {isbn}
      ensures members == old(members)
    {
      ok := isbn in books;
      books := books - {isbn};
    }

    /** findBook: the book filed under `isbn`, or null. */
    function FindBook(isbn: int): (b: Book?)
      requires Valid()
      reads this, members.Values
      ensures b != null <==> isbn in books
      ensures b != null ==> b == books[isbn] && b.isbn == isbn
    {
      if isbn in books then books[isbn] else null
    }

    /** searchBooksByTitle: every book, once, whose lower-cased title contains the lower-cased term. */
    method SearchBooksByTitle(title: string) returns (r: seq<Book>)
      requires Valid()
      ensures forall b :: b in r <==> b in books.Values && Matches(b.title, title)
      ensures DistinctIsbns(r)
    {
      var term := ToLower(title);
      r := [];
      var pending := books.Keys;
      while pending != {}
        invariant pending <= books.Keys
        invariant forall b :: b in r <==> Filed(b) && b.isbn !in pending && Matches(b.title, title)
        invariant DistinctIsbns(r)
        decreases pending
      {
        var k := Choose(pending);
        var book := books[k];
        if Contains(ToLower(book.title), term) {
          r := r + [book];
        }
        pending := pending - {k};
      }
      forall b: Book ensures b in books.Values <==> Filed(b) {
        FiledIff(b);
      }
    }

    /** searchBooksByAuthor: every book, once, whose lower-cased author contains the lower-cased term. */
    method SearchBooksByAuthor(author: string) returns (r: seq<Book>)
      requires Valid()
      ensures forall b :: b in r <==> b in books.Values && Matches(b.author, author)
      ensures DistinctIsbns(r)
    {
      var term := ToLower(author);
      r := [];
      var pending := books.Keys;
      while pending != {}
        invariant pending <= books.Keys
        invariant forall b :: b in r <==> Filed(b) && b.isbn !in pending && Matches(b.author, author)
        invariant DistinctIsbns(r)
        decreases pending
      {
        var k := Choose(pending);
        var book := books[k];
        if Contains(ToLower(book.author), term) {
          r := r + [book];
        }
        pending := pending - {k};
      }
      forall b: Book ensures b in books.Values <==> Filed(b) {
        FiledIff(b);
      }
    }

    /** getAllBooks: every book of the catalog, once each. */
    method GetAllBooks() returns (r: seq<Book>)
      requires Valid()
      ensures forall b :: b in r <==> b in books.Values
      ensures DistinctIsbns(r)
    {
      r := [];
      var pending := books.Keys;
      while pending != {}
        invariant pending <= books.Keys
        invariant forall b :: b in r <==> Filed(b) && b.isbn !in pending
        invariant DistinctIsbns(r)
        decreases pending
      {
        var k := Choose(pending);
        r := r + [books[k]];
        pending := pending - {k};
      }
      forall b: Book ensures b in books.Values <==> Filed(b) {
        FiledIff(b);
      }
    }

    /** getAvailableBooks: every book, once, whose status equals "Available" ignoring case. */
    method GetAvailableBooks() returns (r: seq<Book>)
      requires Valid()
      ensures forall b :: b in r <==> b in books.Values && IsAvailable(b.status)
      ensures DistinctIsbns(r)
    {
      r := [];
      var pending := books.Keys;
      while pending != {}
        invariant pending <= books.Keys
        invariant forall b :: b in r <==> Filed(b) && b.isbn !in pending && IsAvailable(b.status)
        invariant DistinctIsbns(r)
        decreases pending
      {
        var k := Choose(pending);
        var book := books[k];
        if IsAvailable(book.status) {
          r := r + [book];
        }
        pending := pending - {k};
      }
      forall b: Book ensures b in books.Values <==> Filed(b) {
        FiledIff(b);
      }
    }

    // ==================== members ====================

    /** addMember: refuses null and an ID already present; otherwise files the member under its ID. */
    method AddMember(member: Member?) returns (ok: bool)
      requires Valid()
      requires member != null ==> member.Valid()
      modifies this
      ensures Valid()
      ensures ok == (member != null && member.memberId !in old(members))
      ensures members == if ok then old(members)[member.memberId := member] else old(members)
      ensures books == old(books)
    {
      if member == null {
        return false;
      }
      if member.memberId in members {
        return false;
      }
      members := members[member.memberId := member];
      return true;
    }

    /** removeMember: refuses an unknown ID and a member who holds books; otherwise removes only that entry. */
    method RemoveMember(memberId: int) returns (ok: bool)
      requires Valid()
      modifies this
      ensures Valid()
      ensures ok == (memberId in old(members) && old(members)[memberId].borrowed == [])
      ensures members == if ok then old(members) - {memberId} else old(members)
      ensures books == old(books)
    {
      var member := FindMember(memberId);
      if member == null {
        return false;
      }
      if member.borrowed != [] {
        return false;
      }
      members := members - {memberId};
      return true;
    }

    /** findMember: the member filed under `memberId`, or null. */
    function FindMember(memberId: int): (m: Member?)
      requires Valid()
      reads this, members.Values
      ensures m != null <==> memberId in members
      ensures m != null ==> m == members[memberId] && m.memberId == memberId
    {
      if memberId in members then members[memberId] else null
    }

    /** searchMembersByName: every member, once, whose lower-cased name contains the lower-cased term. */
    method SearchMembersByName(name: string) returns (r: seq<Member>)
      requires Valid()
      ensures forall m :: m in r <==> m in members.Values && Matches(m.name, name)
      ensures forall i, j :: 0 <= i < j < |r| ==> r[i].memberId != r[j].memberId
    {
      var term := ToLower(name);
      r := [];
      var pending := members.Keys;
      while pending != {}
        invariant pending <= members.Keys
        invariant forall m :: m in r <==> Enrolled(m) && m.memberId !in pending && Matches(m.name, name)
        invariant forall i, j :: 0 <= i < j < |r| ==> r[i].memberId != r[j].memberId
        decreases pending
      {
        var k := Choose(pending);
        var member := members[k];
        if Contains(ToLower(member.name), term) {
          r := r + [member];
        }
        pending := pending - {k};
      }
      forall m: Member ensures m in members.Values <==> Enrolled(m) {
        EnrolledIff(m);
      }
    }

    /** getAllMembers: every member of the catalog, once each. */
    method GetAllMembers() returns (r: seq<Member>)
      requires Valid()
      ensures forall m :: m in r <==> m in members.Values
      ensures forall i, j :: 0 <= i < j < |r| ==> r[i].memberId != r[j].memberId
    {
      r := [];
      var pending := members.Keys;
      while pending != {}
        invariant pending <= members.Keys
        invariant forall m :: m in r <==> Enrolled(m) && m.memberId !in pending
        invariant forall i, j :: 0 <= i < j < |r| ==> r[i].memberId != r[j].memberId
        decreases pending
      {
        var k := Choose(pending);
        r := r + [members[k]];
        pending := pending - {k};
      }
      forall m: Member ensures m in members.Values <==> Enrolled(m) {
        EnrolledIff(m);
      }
    }

    // ==================== checkout / return ====================

    /**
     * checkoutBook: fails, changing nothing, when the member is unknown, the
     * book is unknown, its status is not "Available" (ignoring case) or the
     * member is at the limit; otherwise appends the book to that member's list.
     * No status is written, so the book stays available.
     */
    method CheckoutBook(memberId: int, isbn: int) returns (ok: bool)
      requires Valid()
      modifies members.Values
      ensures Valid()
      ensures ok == (&& memberId in members && isbn in books
                     && IsAvailable(books[isbn].status)
                     && |old(members[memberId].borrowed)| < MAX_BORROWED)
      ensures Loans() == if ok then old(Loans())[memberId := old(Loans()[memberId]) + [books[isbn]]]
                         else old(Loans())
      ensures Statuses() == old(Statuses())
    {
      var member := FindMember(memberId);
      if member == null {
        return false;
      }
      var book := FindBook(isbn);
      if book == null {
        return false;
      }
      if !IsAvailable(book.status) {
        return false;
      }
      if !member.CanBorrowMore() {
        return false;
      }
      ok := member.BorrowBook(book);
      forall k | k in members && k != memberId
        ensures members[k].borrowed == old(members[k].borrowed)
      {
        assert members[k].memberId != member.memberId;
      }
      assert Loans() == old(Loans())[memberId := member.borrowed];
    }

    /**
     * returnBook: fails, changing nothing, unless the member and the book are
     * known and the member's list holds that very book object; then removes
     * its first occurrence. No status is written.
     */
    method ReturnBook(memberId: int, isbn: int) returns (ok: bool)
      requires Valid()
      modifies members.Values
      ensures Valid()
      ensures ok == (memberId in members && isbn in books && books[isbn] in old(members[memberId].borrowed))
      ensures Loans() == if ok then old(Loans())[memberId := RemoveFirst(old(Loans()[memberId]), books[isbn])]
                         else old(Loans())
      ensures Statuses() == old(Statuses())
    {
      var member := FindMember(memberId);
      if member == null {
        return false;
      }
      var book := FindBook(isbn);
      if book == null {
        return false;
      }
      if book !in member.borrowed {
        return false;
      }
      ok := member.ReturnBook(book);
      forall k | k in members && k != memberId
        ensures members[k].borrowed == old(members[k].borrowed)
      {
        assert members[k].memberId != member.memberId;
      }
      assert Loans() == old(Loans())[memberId := member.borrowed];
    }

    // ==================== counts ====================

    /** getTotalBooks: in a valid catalog, the number of distinct ISBNs among its books. */
    function TotalBooks(): (n: nat)
      reads this, members.Values
      ensures Valid() ==> n == |set b | b in books.Values :: b.isbn|
    {
      KeysAreIsbns();
      |books|
    }

    /** getTotalMembers: in a valid catalog, the number of distinct IDs among its members. */
    function TotalMembers(): (n: nat)
      reads this, members.Values
      ensures Valid() ==> n == |set m | m in members.Values :: m.memberId|
    {
      KeysAreIds();
      |members|
    }

    /** In a valid catalog, the ISBN keys are the ISBNs of the books filed. */
    lemma KeysAreIsbns()
      ensures Valid() ==> books.Keys == set b | b in books.Values :: b.isbn
    {
      if Valid() {
        forall b | b in books.Values ensures b.isbn in books {
          var k := KeyOf(books, b);
        }
        forall k | k in books ensures k in set b | b in books.Values :: b.isbn {
          assert books[k] in books.Values;
        }
      }
    }

    /** In a valid catalog, the ID keys are the IDs of the members enrolled. */
    lemma KeysAreIds()
      ensures Valid() ==> members.Keys == set m | m in members.Values :: m.memberId
    {
      if Valid() {
        forall m | m in members.Values ensures m.memberId in members {
          var k := KeyOf(members, m);
        }
        forall k | k in members ensures k in set m | m in members.Values :: m.memberId {
          assert members[k] in members.Values;
        }
      }
    }

    /** getAvailableBooksCount: the size of getAvailableBooks. */
    method GetAvailableBooksCount() returns (n: nat)
      requires Valid()
      ensures n == |AvailableIsbns()|
    {
      var available := GetAvailableBooks();
      n := |available|;
      DistinctIsbnsCard(available);
      assert IsbnsOf(available) == AvailableIsbns() by {
        forall k | k in AvailableIsbns() ensures k in IsbnsOf(available) {
          assert books[k] in available;
        }
        forall b | b in available ensures b.isbn in AvailableIsbns() {
          FiledIff(b);
        }
      }
    }

    /** getBorrowedBooksCount: counts the books whose status equals "Borrowed" ignoring case. */
    method GetBorrowedBooksCount() returns (n: nat)
      requires Valid()
      ensures n == |BorrowedIsbns()|
    {
      n := 0;
      var pending := books.Keys;
      while pending != {}
        invariant pending <= books.Keys
        invariant n == |BorrowedIsbns() - pending|
        decreases pending
      {
        var k := Choose(pending);
        if IsBorrowed(books[k].status) {
          assert BorrowedIsbns() - (pending - {k}) == (BorrowedIsbns() - pending) + {k};
          n := n + 1;
        } else {
          assert BorrowedIsbns() - (pending - {k}) == BorrowedIsbns() - pending;
        }
        pending := pending - {k};
      }
    }

    /**
     * The available and borrowed counts never add up to more than the total:
     * no status passes both tests.
     */
    lemma CountsBounded()
      ensures |AvailableIsbns()| + |BorrowedIsbns()| <= TotalBooks()
    {
      forall k | k in AvailableIsbns() ensures k !in BorrowedIsbns() {
        StatusTestsDisjoint(books[k].status);
      }
      assert AvailableIsbns() * BorrowedIsbns() == {};
      SubsetCard(AvailableIsbns() + BorrowedIsbns(), books.Keys);
    }
  }
}
