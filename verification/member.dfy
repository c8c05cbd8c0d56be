/** models/Member.java: a member with a fixed ID and a capped list of borrowed books. */
module Members {
  import opened Books
  import opened Lists

  /** The borrowing limit tested by borrowBook. */
  const MAX_BORROWED := 5

  class Member {
    const memberId: int
    const name: string
    /** The borrowed list holds references to Book objects, in borrowing order. */
    var borrowed: seq<Book>

    /** The object invariant: never more than MAX_BORROWED books. */
    ghost predicate Valid()
      reads this
    {
      |borrowed| <= MAX_BORROWED
    }

    /** Member(name): the ID comes from the (random) generator, given here as `generatedId`. */
    constructor (name: string, generatedId: int)
      ensures Valid()
      ensures memberId == generatedId && this.name == name && borrowed == []
    {
      memberId := generatedId;
      this.name := name;
      borrowed := [];
    }

    /**
     * canBorrowMore, called by the catalog but not defined in Member.java: the
     * same test borrowBook makes. It holds exactly when one more book fits
     * under the limit, which for a valid member means the limit is not reached.
     */
    function CanBorrowMore(): (can: bool)
      reads this
      ensures can <==> |borrowed| + 1 <= MAX_BORROWED
      ensures Valid() ==> (can <==> |borrowed| != MAX_BORROWED)
    {
      |borrowed| < MAX_BORROWED
    }

    /**
     * borrowBook: appends the book when fewer than MAX_BORROWED are held,
     * with no check for a book already in the list.
     */
    method BorrowBook(book: Book) returns (ok: bool)
      requires Valid()
      modifies this
      ensures Valid()
      ensures ok == (|old(borrowed)| < MAX_BORROWED)
      ensures borrowed == if ok then old(borrowed) + [book] else old(borrowed)
    {
      if |borrowed| < MAX_BORROWED {
        borrowed := borrowed + [book];
        return true;
      }
      return false;
    }

    /**
     * returnBook: ArrayList.remove(book), which compares references since Book
     * has no equals; it drops the first occurrence only.
     */
    method ReturnBook(book: Book) returns (ok: bool)
      requires Valid()
      modifies this
      ensures Valid()
      ensures ok == (book in old(borrowed))
      ensures borrowed == RemoveFirst(old(borrowed), book)
    {
      ok := book in borrowed;
      borrowed := RemoveFirst(borrowed, book);
    }
  }
}
