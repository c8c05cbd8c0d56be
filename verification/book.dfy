/** models/Book.java: a catalog record whose only mutable field is its status. */
module Books {
  import opened Text

  const AVAILABLE := "Available"
  const BORROWED := "Borrowed"

  /** `"Available".equalsIgnoreCase(status)`, the test the catalog uses for "can be checked out". */
  predicate IsAvailable(status: string)
  {
    EqualsIgnoreCase(AVAILABLE, status)
  }

  /** `"Borrowed".equalsIgnoreCase(status)`, the test used by the borrowed count and the delete guard. */
  predicate IsBorrowed(status: string)
  {
    EqualsIgnoreCase(BORROWED, status)
  }

  /** No status passes both tests, whatever its case. */
  lemma StatusTestsDisjoint(status: string)
    ensures !(IsAvailable(status) && IsBorrowed(status))
  {
    assert |ToLower(AVAILABLE)| != |ToLower(BORROWED)|;
  }

  /** The status every book gets when it is added through the service passes the availability test. */
  lemma AvailableIsAvailable()
    ensures IsAvailable(AVAILABLE) && !IsBorrowed(AVAILABLE)
  {
    StatusTestsDisjoint(AVAILABLE);
  }

  /**
   * A book. ISBN, title and author have no setters in the source, so they are
   * constants here; only the status can change after construction.
   */
  class Book {
    const isbn: int
    const title: string
    const author: string
    var status: string

    /**
     * Book(title, author, ISBN, status). The ISBN argument is discarded: the
     * stored ISBN is the one the (random) generator produced, given here as
     * `generatedIsbn`.
     */
    constructor (title: string, author: string, isbnArgument: int, status: string, generatedIsbn: int)
      ensures this.isbn == generatedIsbn
      ensures this.title == title && this.author == author && this.status == status
    {
      this.isbn := generatedIsbn;
      this.title := title;
      this.author := author;
      this.status := status;
    }

    /**
     * Book(title, author, status), called by the service but not defined in
     * Book.java; modelled as the constructor that generates the ISBN.
     */
    constructor WithGeneratedIsbn(title: string, author: string, status: string, generatedIsbn: int)
      ensures this.isbn == generatedIsbn
      ensures this.title == title && this.author == author && this.status == status
    {
      this.isbn := generatedIsbn;
      this.title := title;
      this.author := author;
      this.status := status;
    }

    /** setStatus: replaces the status and nothing else. */
    method SetStatus(status: string)
      modifies this
      ensures this.status == status
    {
      this.status := status;
    }
  }
}
