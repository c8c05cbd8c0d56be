# Library catalog, modelled in Dafny

This project models the core of a small Java library-management system. The
core has four parts:

- the in-memory catalog (`Library`);
- its two entities (`Book`, `Member`);
- the service layer in front of it (`LibraryService`);
- the backup rules of the persistence class (`FileService`).

The catalog keeps two maps keyed by identity: ISBN to book and member ID to
member. It adds, removes, finds and searches books and members, checks a book
out to a member and takes it back, and counts. The service checks the caller's
arguments, raises not-found errors and refuses some deletions before it
delegates to the catalog. It asks for a save after every change that
succeeded. The persistence class writes each collection to a data file. It
copies the old file to a time-stamped backup first. It keeps the five newest
backups of each file. When a data file exists but cannot be deserialized,
it restores the newest backup and loads again; a file that is absent or
cannot be opened loads as an empty collection.

Modules, one per source file, except that `FileService.java` is split over
two (`Backups` for its rules as functions, `Persistence` for the class), plus
three helper modules:

| module | file | models |
|---|---|---|
| `Books` | `book.dfy` | `models/Book.java`: a class whose only mutable field is `status`, and the two status tests |
| `Members` | `member.dfy` | `models/Member.java`: a class with a fixed ID and a borrowed list capped at 5 |
| `Catalog` | `library.dfy` | `models/Library.java`: a class over two maps, with loops for the searches and counts |
| `Service` | `library_service.dfy` | `services/LibraryService.java`: a class over a `Library`, with a ghost log of save actions |
| `Backups` | `backups.dfy` | the naming, selection, retention and load rules of `services/FileService.java`, as functions on a directory listing |
| `Persistence` | `file_service.dfy` | `services/FileService.java`: a class over a map of data files and a listing of backups, with the array sort, the max-scan and the deletion loop |
| `Text`, `Lists`, `Wrappers` | `text.dfy`, `lists.dfy`, `wrappers.dfy` | the `String` and `ArrayList` operations the code calls (ASCII case folding, `contains`, `trim`, `replace`, `remove(Object)`), and `Option` |

Books and members are Dafny class objects. A member's borrowed list therefore
holds references, and `returnBook`'s `contains` compares references, as in
Java, where `Book` has no `equals`.

The model follows the code where the system's own description of it differs:

- Checking a book out never writes the status "Borrowed". `checkoutBook` only
  appends the book to the member's list. So a book stays "Available" while it
  is lent, can be lent again (even to the same member), and the
  delete guard of `deleteBook` never fires on books created through the
  service. `Service.DoubleCheckoutThenDelete` proves this sequence.
- The four-argument `Book` constructor discards its ISBN argument and stores
  a generated one. So `addNewBook(title, author, ISBN)` files and returns the
  generated ISBN, never the caller's.
- Three members the code calls are missing from the `Member` source:
  `canBorrowMore`, `getName` and `getBorrowedBooksCount`. The first two are
  modelled as `|borrowed| < 5` (the test `borrowBook` makes) and the constant
  `name`. The third is used only in display text: a console message of
  `removeMember` and the strings that the `LibraryService` queries
  `getAllMembers` and `findMemberByID` return. Both are left out. The
  three-argument `Book` constructor the service calls is missing too; it is
  modelled as the constructor that generates the ISBN.

## Model

| member | source | states |
|---|---|---|
| `Text.EqualsIgnoreCaseIff` | src/main/java/com/obcodes/librarymanagementsystem/models/Library.java:120 | two strings are equal ignoring case exactly when they have the same length and agree character by character once folded |
| `Text.ContainsIff` | src/main/java/com/obcodes/librarymanagementsystem/models/Library.java:79 | `contains` holds exactly when the term occurs at some position of the string |
| `Text.Trim` | src/main/java/com/obcodes/librarymanagementsystem/services/LibraryService.java:53 | `trim` returns a middle slice of the string; everything cut off is a character at or below U+0020, and the result neither starts nor ends with such a character |
| `Text.BlankIff` | src/main/java/com/obcodes/librarymanagementsystem/services/LibraryService.java:49 | `trim().isEmpty()` holds exactly when every character is one `trim` removes |
| `Lists.RemoveFirst` | src/main/java/com/obcodes/librarymanagementsystem/models/Member.java:46-50 | `ArrayList.remove(Object)` leaves a list without the element unchanged and otherwise shortens it by exactly one |
| `Lists.RemoveFirstMultiset` | src/main/java/com/obcodes/librarymanagementsystem/models/Member.java:48 | exactly one copy of the element leaves the list and nothing else does |
| `Lists.RemoveFirstAt` | src/main/java/com/obcodes/librarymanagementsystem/models/Member.java:48 | the copy removed is the first one; what precedes it and what follows it keep their order |
| `Books.StatusTestsDisjoint` | src/main/java/com/obcodes/librarymanagementsystem/models/Library.java:324-332 | no status passes both the "Available" and the "Borrowed" test, in any case |
| `Books.AvailableIsAvailable` | src/main/java/com/obcodes/librarymanagementsystem/services/LibraryService.java:84 | the status the service gives new books passes the "Available" test and fails the "Borrowed" one |
| `Books.Book.constructor` | src/main/java/com/obcodes/librarymanagementsystem/models/Book.java:17-22 | title, author and status are stored as given; the stored ISBN is the generated one, whatever ISBN argument was passed |
| `Books.Book.WithGeneratedIsbn` | src/main/java/com/obcodes/librarymanagementsystem/services/LibraryService.java:84 | the three-argument constructor stores title, author and status as given, under the generated ISBN |
| `Books.Book.SetStatus` | src/main/java/com/obcodes/librarymanagementsystem/models/Book.java:49-51 | only the status changes; ISBN, title and author are constants |
| `Members.Member.constructor` | src/main/java/com/obcodes/librarymanagementsystem/models/Member.java:18-23 | a new member has the generated ID, the given name and an empty list |
| `Members.Member.CanBorrowMore` | src/main/java/com/obcodes/librarymanagementsystem/models/Library.java:240 | the missing canBorrowMore as the test borrowBook makes: one more book fits under the limit of 5, which for a valid member means the limit is not reached |
| `Members.Member.BorrowBook` | src/main/java/com/obcodes/librarymanagementsystem/models/Member.java:36-44 | true exactly when fewer than 5 books were held, and then the book is appended with no duplicate check; otherwise the list is unchanged; the cap of 5 is kept |
| `Members.Member.ReturnBook` | src/main/java/com/obcodes/librarymanagementsystem/models/Member.java:46-50 | true exactly when that very book object was held; its first occurrence is removed; the cap is kept |
| `Catalog.DistinctIsbnsCard` | src/main/java/com/obcodes/librarymanagementsystem/models/Library.java:316-318 | a list of books with no repeated ISBN has as many ISBNs as entries, so a list's size counts its books |
| `Catalog.Library.FiledIff` | src/main/java/com/obcodes/librarymanagementsystem/models/Library.java:40 | in a valid catalog, a book is in the map exactly when it is filed under its own ISBN |
| `Catalog.Library.EnrolledIff` | src/main/java/com/obcodes/librarymanagementsystem/models/Library.java:145 | in a valid catalog, a member is in the map exactly when it is filed under its own ID |
| `Catalog.Library.constructor` | src/main/java/com/obcodes/librarymanagementsystem/models/Library.java:17-20 | both maps start empty |
| `Catalog.Library.AddBook` | src/main/java/com/obcodes/librarymanagementsystem/models/Library.java:29-43 | false and no change for null or a present ISBN; otherwise exactly that key is added; members untouched |
| `Catalog.Library.RemoveBook` | src/main/java/com/obcodes/librarymanagementsystem/models/Library.java:50-58 | true exactly when the ISBN was present; only that key is removed, with no status check |
| `Catalog.Library.FindBook` | src/main/java/com/obcodes/librarymanagementsystem/models/Library.java:65-67 | not null exactly when the ISBN is present, and then the book filed under it |
| `Catalog.Library.SearchBooksByTitle` | src/main/java/com/obcodes/librarymanagementsystem/models/Library.java:74-85 | exactly the books whose lower-cased title contains the lower-cased term, each once |
| `Catalog.Library.SearchBooksByAuthor` | src/main/java/com/obcodes/librarymanagementsystem/models/Library.java:92-103 | exactly the books whose lower-cased author contains the lower-cased term, each once |
| `Catalog.Library.GetAllBooks` | src/main/java/com/obcodes/librarymanagementsystem/models/Library.java:109-111 | exactly the books of the catalog, each once |
| `Catalog.Library.GetAvailableBooks` | src/main/java/com/obcodes/librarymanagementsystem/models/Library.java:117-125 | exactly the books whose status equals "Available" ignoring case, each once |
| `Catalog.Library.AddMember` | src/main/java/com/obcodes/librarymanagementsystem/models/Library.java:134-148 | false and no change for null or a present ID; otherwise exactly that key is added; books untouched |
| `Catalog.Library.RemoveMember` | src/main/java/com/obcodes/librarymanagementsystem/models/Library.java:155-173 | true exactly when the ID is present and that member holds no book; then only that key is removed, otherwise nothing changes |
| `Catalog.Library.FindMember` | src/main/java/com/obcodes/librarymanagementsystem/models/Library.java:180-182 | not null exactly when the ID is present, and then the member filed under it |
| `Catalog.Library.SearchMembersByName` | src/main/java/com/obcodes/librarymanagementsystem/models/Library.java:189-200 | exactly the members whose lower-cased name contains the lower-cased term, each once |
| `Catalog.Library.GetAllMembers` | src/main/java/com/obcodes/librarymanagementsystem/models/Library.java:206-208 | exactly the members of the catalog, each once |
| `Catalog.Library.CheckoutBook` | src/main/java/com/obcodes/librarymanagementsystem/models/Library.java:218-254 | true exactly when the member and the book exist, the status is "Available" ignoring case and the member holds fewer than 5; then only that member's list changes, by appending the book; no status changes; on failure nothing changes |
| `Catalog.Library.ReturnBook` | src/main/java/com/obcodes/librarymanagementsystem/models/Library.java:262-292 | true exactly when the member and the book exist and the member's list holds that book object; then only that list changes, losing its first copy of the book; no status changes |
| `Catalog.Library.GetAvailableBooksCount` | src/main/java/com/obcodes/librarymanagementsystem/models/Library.java:316-318 | the number of ISBNs whose status passes the "Available" test |
| `Catalog.Library.GetBorrowedBooksCount` | src/main/java/com/obcodes/librarymanagementsystem/models/Library.java:324-332 | the number of ISBNs whose status passes the "Borrowed" test |
| `Catalog.Library.TotalBooks` | src/main/java/com/obcodes/librarymanagementsystem/models/Library.java:300-302 | in a valid catalog, the total is the number of distinct ISBNs among the books filed |
| `Catalog.Library.TotalMembers` | src/main/java/com/obcodes/librarymanagementsystem/models/Library.java:308-310 | in a valid catalog, the total is the number of distinct IDs among the members enrolled |
| `Catalog.Library.KeysAreIsbns` | src/main/java/com/obcodes/librarymanagementsystem/models/Library.java:40 | in a valid catalog, the ISBN keys are exactly the ISBNs of the books filed |
| `Catalog.Library.KeysAreIds` | src/main/java/com/obcodes/librarymanagementsystem/models/Library.java:145 | in a valid catalog, the ID keys are exactly the IDs of the members enrolled |
| `Catalog.Library.CountsBounded` | src/main/java/com/obcodes/librarymanagementsystem/models/Library.java:300-332 | the available and borrowed counts add up to at most the total |
| `Service.BookArgumentProblem` | src/main/java/com/obcodes/librarymanagementsystem/services/LibraryService.java:76-81 | no problem exactly when title and author are both present and non-blank; a blank title is reported before a blank author |
| `Service.LibraryService.constructor` | src/main/java/com/obcodes/librarymanagementsystem/services/LibraryService.java:26-29 | the service wraps the given catalog and has saved nothing |
| `Service.LibraryService.RegisterMember` | src/main/java/com/obcodes/librarymanagementsystem/services/LibraryService.java:48-65 | a null or blank name raises IllegalArgument with nothing changed; otherwise a member with the trimmed name and an empty list is added under the generated ID, which is returned, and the members are saved; a taken ID raises IllegalState with nothing changed |
| `Service.LibraryService.AddNewBook` | src/main/java/com/obcodes/librarymanagementsystem/services/LibraryService.java:75-97 | a blank title, then a blank author, raises IllegalArgument with nothing changed; otherwise an "Available" book with trimmed fields is filed under the generated ISBN, which is returned, and the books are saved; a taken ISBN raises IllegalState |
| `Service.LibraryService.AddNewBookWithIsbn` | src/main/java/com/obcodes/librarymanagementsystem/services/LibraryService.java:107-127 | the same checks and outcome; the ISBN filed and returned is the generated one, not the caller's |
| `Service.LibraryService.BorrowBook` | src/main/java/com/obcodes/librarymanagementsystem/services/LibraryService.java:137-158 | an unknown member, then an unknown book, raises IllegalArgument with nothing changed; otherwise the catalog's checkout result is returned, and both collections are saved exactly when it is true |
| `Service.LibraryService.ReturnBook` | src/main/java/com/obcodes/librarymanagementsystem/services/LibraryService.java:168-189 | the same errors; otherwise the catalog's return result, with both collections saved exactly when it is true |
| `Service.LibraryService.DeleteBook` | src/main/java/com/obcodes/librarymanagementsystem/services/LibraryService.java:566-582 | false with nothing changed when the status equals "Borrowed" ignoring case; otherwise the catalog's removal result, with the books saved exactly when it is true; while no status is "Borrowed", any present book is deleted |
| `Service.LibraryService.RemoveMember` | src/main/java/com/obcodes/librarymanagementsystem/services/LibraryService.java:590-606 | true exactly when the member exists and holds no book; then only that member is removed and the members are saved; otherwise nothing changes |
| `Service.LibraryService.SaveAllData` | src/main/java/com/obcodes/librarymanagementsystem/services/LibraryService.java:196-216 | saves the books, then the members, and succeeds exactly when both writes succeed |
| `Service.LibraryService.LoadAllData` | src/main/java/com/obcodes/librarymanagementsystem/services/LibraryService.java:223-252 | the load only adds: every key present before keeps its object, the new keys are the loaded entities' own ISBNs and IDs, each new entry is a loaded object, and nothing is removed |
| `Service.LibraryService.AddLoadedBooks` | src/main/java/com/obcodes/librarymanagementsystem/services/LibraryService.java:233-235 | the books loop of the load, with the same additive result for books and members untouched |
| `Service.LibraryService.AddLoadedMembers` | src/main/java/com/obcodes/librarymanagementsystem/services/LibraryService.java:238-240 | the members loop of the load, with the same additive result for members and books untouched |
| `Service.LibraryService.GetLibraryStats` | src/main/java/com/obcodes/librarymanagementsystem/services/LibraryService.java:613-645 | the catalog's four counts; the active count is the number of members holding a book and the inactive figure is the number holding none; available plus borrowed is at most the total |
| `Service.LibraryService.ActiveCount` | src/main/java/com/obcodes/librarymanagementsystem/services/LibraryService.java:620-635 | the members counted over getAllMembers are exactly the active ones, and the total minus their number is the number of inactive ones |
| `Service.CountHolders` | src/main/java/com/obcodes/librarymanagementsystem/services/LibraryService.java:620-626 | the counting loop returns the number of distinct members with a non-empty list |
| `Service.NotBlank` | src/main/java/com/obcodes/librarymanagementsystem/services/LibraryService.java:49 | a string whose first character `trim` keeps passes the blank check |
| `Service.OneMemberOneBook` | src/main/java/com/obcodes/librarymanagementsystem/services/LibraryService.java:48-97 | registering a member and adding a book to an empty catalog leaves that member with no loans and that book available |
| `Service.DoubleCheckoutThenDelete` | src/main/java/com/obcodes/librarymanagementsystem/models/Library.java:233-251 | because no status is written, the same member checks the same book out twice, the book stays "Available", and it can then be deleted while held twice |
| `Backups.DigitsRoundTrip` | src/main/java/com/obcodes/librarymanagementsystem/services/FileService.java:27-28 | a zero-padded field of the timestamp reads back as the number printed |
| `Backups.StampRoundTrip` | src/main/java/com/obcodes/librarymanagementsystem/services/FileService.java:27-28 | the "yyyyMMdd_HHmmss" stamp can be parsed back to the date and time it was made from |
| `Backups.StampInjective` | src/main/java/com/obcodes/librarymanagementsystem/services/FileService.java:234-239 | two backups get the same stamp exactly when they are taken in the same second |
| `Backups.ReplaceExtension` | src/main/java/com/obcodes/librarymanagementsystem/services/FileService.java:235 | in a name "p.dat" whose part p has no dot, `replace(".dat", r)` yields p followed by r |
| `Backups.DataFileNames` | src/main/java/com/obcodes/librarymanagementsystem/services/FileService.java:233-235 | a data file "p.dat" is backed up as "p_" + stamp + ".dat", its base name is p, and its backups are candidates for it |
| `Backups.OtherFileNames` | src/main/java/com/obcodes/librarymanagementsystem/services/FileService.java:266-267 | a backup of one data file is not a candidate for a file whose name starts with another letter |
| `Backups.BackupsStayWithTheirFile` | src/main/java/com/obcodes/librarymanagementsystem/services/FileService.java:23-24 | the base names are "books" and "members"; each data file's backups are its own candidates and never the other file's |
| `Backups.Candidates` | src/main/java/com/obcodes/librarymanagementsystem/services/FileService.java:266-267 | the listing filter keeps exactly the entries that start with the base name and end with ".dat" |
| `Backups.CandidatesDistinct` | src/main/java/com/obcodes/librarymanagementsystem/services/FileService.java:303-304 | the candidates of a directory have distinct names |
| `Backups.PutEntry` | src/main/java/com/obcodes/librarymanagementsystem/services/FileService.java:239 | a copy with REPLACE_EXISTING adds the entry, keeps every file of another name, and adds only its name |
| `Backups.PutEntryDistinct` | src/main/java/com/obcodes/librarymanagementsystem/services/FileService.java:239 | the directory still has distinct names after the copy |
| `Backups.WithoutNames` | src/main/java/com/obcodes/librarymanagementsystem/services/FileService.java:316-320 | deleting a set of names keeps exactly the entries whose name is not in it |
| `Backups.RemoveNamed` | src/main/java/com/obcodes/librarymanagementsystem/services/FileService.java:317 | deleting one name keeps exactly the entries of other names |
| `Backups.WithoutNamesThenRemove` | src/main/java/com/obcodes/librarymanagementsystem/services/FileService.java:316-320 | one more deletion after a set of deletions deletes their union |
| `Backups.WithoutNothing` | src/main/java/com/obcodes/librarymanagementsystem/services/FileService.java:316 | deleting no names changes nothing |
| `Backups.WithoutNamesDistinct` | src/main/java/com/obcodes/librarymanagementsystem/services/FileService.java:316-320 | deletions keep the names distinct |
| `Backups.NewestPos` | src/main/java/com/obcodes/librarymanagementsystem/services/FileService.java:275-280 | the chosen entry is at least as recent as every candidate and strictly more recent than every earlier one |
| `Backups.InsertAt` | src/main/java/com/obcodes/librarymanagementsystem/services/FileService.java:311-312 | one insertion places the entry after the last entry that is not later than it |
| `Backups.InsertPermutes` | src/main/java/com/obcodes/librarymanagementsystem/services/FileService.java:311-312 | one insertion adds exactly that entry and loses nothing |
| `Backups.InsertSorted` | src/main/java/com/obcodes/librarymanagementsystem/services/FileService.java:311-312 | one insertion into a list sorted by time keeps it sorted |
| `Backups.SortSorted` | src/main/java/com/obcodes/librarymanagementsystem/services/FileService.java:311-312 | the sort orders by last-modified time, oldest first, and is a permutation |
| `Backups.InsertNames` | src/main/java/com/obcodes/librarymanagementsystem/services/FileService.java:311-312 | inserting an entry of a new name keeps names distinct and adds that name |
| `Backups.SortNames` | src/main/java/com/obcodes/librarymanagementsystem/services/FileService.java:311-312 | the sort keeps the set of names and keeps them distinct |
| `Backups.CleanedFew` | src/main/java/com/obcodes/librarymanagementsystem/services/FileService.java:306-308 | with at most 5 candidates nothing is deleted |
| `Backups.CleanedKeepsOthers` | src/main/java/com/obcodes/librarymanagementsystem/services/FileService.java:303-320 | a file that is not a candidate is never deleted |
| `Backups.CleanedDropsOldest` | src/main/java/com/obcodes/librarymanagementsystem/services/FileService.java:310-320 | every deleted candidate is at most as recent as every kept one |
| `Backups.CleanedRetains` | src/main/java/com/obcodes/librarymanagementsystem/services/FileService.java:298-325 | the candidates left after the clean-up are exactly the kept ones: all of them when there were at most 5, otherwise the 5 newest in sorted order |
| `Backups.KeptSurvive` | src/main/java/com/obcodes/librarymanagementsystem/services/FileService.java:315-320 | with more than 5 candidates, none of the 5 newest is deleted |
| `Backups.SurvivorsKept` | src/main/java/com/obcodes/librarymanagementsystem/services/FileService.java:315-320 | with more than 5 candidates, every candidate left is one of the 5 newest |
| `Backups.RestoreIdempotent` | src/main/java/com/obcodes/librarymanagementsystem/services/FileService.java:258-292 | restoring twice from the same directory is the same as restoring once |
| `Backups.MaxIsLast` | src/main/java/com/obcodes/librarymanagementsystem/services/FileService.java:311-312 | in a time-sorted listing with distinct names, an entry later than all others is the last one |
| `Backups.LatestSurvivesCleanup` | src/main/java/com/obcodes/librarymanagementsystem/services/FileService.java:242-243 | a candidate strictly later than every other entry survives the clean-up |
| `Backups.NewestIsLatest` | src/main/java/com/obcodes/librarymanagementsystem/services/FileService.java:275-280 | the max-scan picks the entry that is strictly later than every other |
| `Backups.NewBackupIsNewest` | src/main/java/com/obcodes/librarymanagementsystem/services/FileService.java:223-251 | a backup taken later than every existing one is what the next restore copies back |
| `Backups.FailedSaveRestores` | src/main/java/com/obcodes/librarymanagementsystem/services/FileService.java:73-90 | when a write fails after the backup, the restore gives the file back exactly the content it had before the save, provided the backup clock is later than every existing backup |
| `Backups.LoadRecovers` | src/main/java/com/obcodes/librarymanagementsystem/services/FileService.java:118-124 | a corrupt file whose newest backup is readable loads that backup's value after one reload |
| `Backups.LoadDiverges` | src/main/java/com/obcodes/librarymanagementsystem/services/FileService.java:126-135 | a corrupt file whose newest backup is corrupt too is restored and reloaded without end: no fuel suffices |
| `Persistence.SortBackups` | src/main/java/com/obcodes/librarymanagementsystem/services/FileService.java:311-312 | the in-place stable sort leaves the array equal to the sorted listing |
| `Persistence.InsertInPlace` | src/main/java/com/obcodes/librarymanagementsystem/services/FileService.java:311-312 | one pass inserts the next entry into the sorted prefix and leaves the rest of the array alone |
| `Persistence.ShiftLater` | src/main/java/com/obcodes/librarymanagementsystem/services/FileService.java:311-312 | the shift moves up by one every later entry behind the gap and stops at the first one that is not later |
| `Persistence.NewestIndex` | src/main/java/com/obcodes/librarymanagementsystem/services/FileService.java:275-280 | the max-scan loop returns the first of the most recent candidates |
| `Persistence.FileService.constructor` | src/main/java/com/obcodes/librarymanagementsystem/services/FileService.java:33-35 | starts from the given data files and backup directory |
| `Persistence.FileService.CleanOldBackups` | src/main/java/com/obcodes/librarymanagementsystem/services/FileService.java:298-325 | the backup directory becomes the cleaned directory: with more than 5 candidates, all but the 5 newest are deleted; data files untouched |
| `Persistence.FileService.DeleteFirst` | src/main/java/com/obcodes/librarymanagementsystem/services/FileService.java:315-320 | the deletion loop deletes exactly the names of the first `toDelete` sorted candidates |
| `Persistence.FileService.CreateBackup` | src/main/java/com/obcodes/librarymanagementsystem/services/FileService.java:223-251 | false with nothing copied for an absent file; otherwise the copy is put under its stamped name and the clean-up runs |
| `Persistence.FileService.RestoreFromBackup` | src/main/java/com/obcodes/librarymanagementsystem/services/FileService.java:258-292 | false exactly when there is no candidate; otherwise the newest candidate's content is copied over the file |
| `Persistence.FileService.SaveFile` | src/main/java/com/obcodes/librarymanagementsystem/services/FileService.java:67-91 | a null collection changes nothing; otherwise the backup comes first, then the write; a failed write is followed by a restore |
| `Persistence.FileService.SaveBooks` | src/main/java/com/obcodes/librarymanagementsystem/services/FileService.java:67-91 | saveBooks: the same outcome as `SaveFile` for the books file, so a failed write is followed by a restore from the newest backup; when the file existed before the call and the backup clock is later than every existing backup, that restore leaves the data files as they were before the call |
| `Persistence.FileService.SaveMembers` | src/main/java/com/obcodes/librarymanagementsystem/services/FileService.java:145-169 | saveMembers: the same outcome and the same restore guarantee for the members file |
| `Persistence.FileService.LoadFile` | src/main/java/com/obcodes/librarymanagementsystem/services/FileService.java:98-136 | an absent file, and one that exists but cannot be opened, loads as empty with no restore; a readable file loads as its value; a corrupt one is restored and reloaded, or loads as empty when there is no backup |
| `Persistence.FileService.LoadBooks` | src/main/java/com/obcodes/librarymanagementsystem/services/FileService.java:98-136 | loadBooks on the books file: the same answer as `LoadFile`; the file is restored from the newest backup exactly when it was corrupt, and otherwise the data files are unchanged |
| `Persistence.FileService.LoadMembers` | src/main/java/com/obcodes/librarymanagementsystem/services/FileService.java:176-214 | loadMembers on the members file: the same answer as `LoadFile`; the file is restored from the newest backup exactly when it was corrupt, and otherwise the data files are unchanged |

## Left out

- Random ID and ISBN generation (`generateISBN`, `generateMemberID`) uses floating point. Each generated value is a parameter instead (`generatedIsbn`, `generatedId`).
- Case folding is modelled over ASCII only. Java's Unicode case mapping and locale rules are not modelled.
- `long` and `int` are unbounded integers here. The counts cannot overflow at any realistic size.
- Serialization and file I/O are not modelled. The content of a data file is an opaque value; a file that does not deserialize is `Corrupt`, and one that exists but cannot be opened (`FileNotFoundException`) is `Unopenable`. The two data files are keyed by their names inside the data directory ("books.dat", "members.dat"). `FileService` builds those names from the "data/" paths with `getName`.
- `Persistence.FileService.SaveFile`: the write's outcome is a parameter. A failed write is modelled as leaving the file corrupt. An `IOException` from `Files.copy` during a backup or a restore, and a failed `File.delete` during the clean-up, are not modelled. A backup of an `Unopenable` file is modelled as a copy of that state, where `Files.copy` would throw.
- `Persistence.FileService.CreateBackup`: the current time is given twice. `now` is the stamp's date and time; `clock` is the copy's last-modified time. Their agreement is not modelled. Only years 1 to 9999 are modelled, the range the four-digit year-of-era field prints as written.
- `Persistence.FileService.LoadFile`: the restore-and-reload recursion has no bound in the code. It is modelled with a fuel bound, and `Unfinished` stands for running out of fuel. `Backups.LoadDiverges` shows the case where no fuel is enough.
- `Persistence.SortBackups`: `Arrays.sort` is modelled as a stable insertion sort. The result is the same for any stable sort.
- `Service.LibraryService.LoadAllData` requires that every loaded member holds at most 5 books. Every member the code creates does. The maps it receives are parameters, so the call to `FileService` is not part of it.
- `Service.LibraryService.SaveAllData`: each write's outcome is a parameter. What is saved is recorded in the ghost log `saves`.
- The no-argument `LibraryService()` constructor, which loads at start-up, is not modelled. Neither are `setLibrary`, `setFileService` and `shutdown`.
- The query methods of `LibraryService` that only format text are not modelled: `getAllBooks`, `getAllMembers`, `findBookByTitle`, `findBookByISBN`, `findMemberByID`, `getMemberBorrowedBooks`, `getAvailableBooks`, `getBorrowedBooks` and `searchBooksByAuthor`. The catalog operations they call are modelled.
- `Service.LibraryService.GetLibraryStats` returns the figures, not the text. The "Active Members Percentage" is a double and is not modelled.
- `Library.displayStatistics`, `toString`, `saveToFile` and `loadFromFile` are not modelled. The same goes for `FileService.booksFileExists`, `membersFileExists`, `deleteAllData`, `getFileInfo`, `displayFilesInfo` and the directory creation.
- Console output is left out everywhere.
