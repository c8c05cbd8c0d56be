/**
 * The rules services/FileService.java applies to its backup directory, as
 * functions on a listing of entries: how a backup is named, which entries
 * belong to a data file, which one a restore copies back, which ones the
 * clean-up deletes, and what a load finally returns.
 */
module Backups {
  import opened Wrappers
  import opened Text

  /**
   * The state of a file that exists: a value that deserializes, bytes that do
   * not, or a file that cannot be opened for reading at all.
   */
  datatype Stored<T> = Readable(value: T) | Corrupt | Unopenable

  /** One file of the backup directory: its name, its last-modified time in milliseconds, its content. */
  datatype Entry<T> = Entry(name: string, mtime: int, content: Stored<T>)

  /** The two data files, by their names inside the data directory. */
  const BOOKS_FILE := "books.dat"
  const MEMBERS_FILE := "members.dat"
  const EXTENSION := ".dat"
  /** The number of backups per data file that the clean-up keeps. */
  const KEEP := 5

  // ==================== timestamps ====================

  /** The fields of a LocalDateTime that the "yyyyMMdd_HHmmss" pattern prints. */
  datatype DateTime = DateTime(year: int, month: int, day: int, hour: int, minute: int, second: int)

  predicate ValidDateTime(t: DateTime)
  {
    && 1 <= t.year <= 9999 && 1 <= t.month <= 12 && 1 <= t.day <= 31
    && 0 <= t.hour < 24 && 0 <= t.minute < 60 && 0 <= t.second < 60
  }

  function Pow10(w: nat): (p: nat)
    ensures p >= 1
  {
    if w == 0 then 1 else 10 * Pow10(w - 1)
  }

  predicate IsDigit(c: char)
  {
    '0' <= c <= '9'
  }

  /** `n` printed in decimal with exactly `width` digits, zero-padded on the left. */
  function Digits(n: nat, width: nat): (r: string)
    ensures |r| == width
    ensures forall i :: 0 <= i < |r| ==> IsDigit(r[i])
  {
    if width == 0 then [] else Digits(n / 10, width - 1) + [('0' as int + n % 10) as char]
  }

  /** The number a string of decimal digits denotes. */
  function DigitsValue(s: string): int
  {
    if s == [] then 0 else 10 * DigitsValue(s[..|s| - 1]) + (s[|s| - 1] as int - '0' as int)
  }

  /** Printing a number that fits the width and reading it back gives the number. */
  lemma {:induction false} DigitsRoundTrip(n: nat, width: nat)
    requires n < Pow10(width)
    ensures DigitsValue(Digits(n, width)) == n
  {
    if width > 0 {
      var r := Digits(n, width);
      assert r[..|r| - 1] == Digits(n / 10, width - 1);
      assert n / 10 < Pow10(width - 1);
      DigitsRoundTrip(n / 10, width - 1);
    }
  }

  /** The "yyyyMMdd_HHmmss" pattern. */
  function Stamp(t: DateTime): (r: string)
    requires ValidDateTime(t)
    ensures |r| == 15 && r[8] == '_'
  {
    Digits(t.year, 4) + Digits(t.month, 2) + Digits(t.day, 2) + "_" +
    Digits(t.hour, 2) + Digits(t.minute, 2) + Digits(t.second, 2)
  }

  /** Reads the fields back out of a stamp. */
  function ParseStamp(s: string): DateTime
    requires |s| == 15
  {
    DateTime(DigitsValue(s[0..4]), DigitsValue(s[4..6]), DigitsValue(s[6..8]),
             DigitsValue(s[9..11]), DigitsValue(s[11..13]), DigitsValue(s[13..15]))
  }

  /** A stamp loses nothing: the time can be read back from it. */
  lemma StampRoundTrip(t: DateTime)
    requires ValidDateTime(t)
    ensures ParseStamp(Stamp(t)) == t
  {
    var s := Stamp(t);
    var date := Digits(t.year, 4) + Digits(t.month, 2) + Digits(t.day, 2);
    var time := Digits(t.hour, 2) + Digits(t.minute, 2) + Digits(t.second, 2);
    assert s == date + "_" + time;
    assert s[..8] == date;
    assert s[9..] == time;
    assert s[0..4] == date[0..4] == Digits(t.year, 4);
    assert s[4..6] == date[4..6] == Digits(t.month, 2);
    assert s[6..8] == date[6..8] == Digits(t.day, 2);
    assert s[9..11] == time[0..2] == Digits(t.hour, 2);
    assert s[11..13] == time[2..4] == Digits(t.minute, 2);
    assert s[13..15] == time[4..6] == Digits(t.second, 2);
    DigitsRoundTrip(t.year, 4);
    DigitsRoundTrip(t.month, 2);
    DigitsRoundTrip(t.day, 2);
    DigitsRoundTrip(t.hour, 2);
    DigitsRoundTrip(t.minute, 2);
    DigitsRoundTrip(t.second, 2);
  }

  /** Two backups get the same stamp exactly when they are taken in the same second. */
  lemma StampInjective(t: DateTime, u: DateTime)
    requires ValidDateTime(t) && ValidDateTime(u)
    ensures Stamp(t) == Stamp(u) <==> t == u
  {
    if Stamp(t) == Stamp(u) {
      StampRoundTrip(t);
      StampRoundTrip(u);
    }
  }

  // ==================== names ====================

  /** createBackup's name: every ".dat" of the file name becomes "_" + stamp + ".dat". */
  function BackupName(fileName: string, stamp: string): string
  {
    ReplaceAll(fileName, EXTENSION, "_" + stamp + EXTENSION)
  }

  /** The base name restore and clean-up match against: the file name with every ".dat" removed. */
  function BaseName(fileName: string): string
  {
    ReplaceAll(fileName, EXTENSION, "")
  }

  /** The listFiles filter: starts with the base name and ends with ".dat". */
  predicate IsCandidate(name: string, base: string)
  {
    base <= name && EndsWith(name, EXTENSION)
  }

  /** The name part of a file name before its extension: no character of it starts an EXTENSION. */
  predicate NoDot(p: string)
  {
    forall i :: 0 <= i < |p| ==> p[i] != '.'
  }

  /** Replacing the extension in a file name whose name part has no dot touches only the extension. */
  lemma {:induction false} ReplaceExtension(p: string, replacement: string)
    requires NoDot(p)
    ensures ReplaceAll(p + EXTENSION, EXTENSION, replacement) == p + replacement
    decreases |p|
  {
    var s := p + EXTENSION;
    if p == [] {
      assert s == EXTENSION;
      assert s[|EXTENSION|..] == [];
    } else {
      assert s[0] == p[0] != EXTENSION[0];
      assert s[1..] == p[1..] + EXTENSION;
      ReplaceExtension(p[1..], replacement);
      assert p == [p[0]] + p[1..];
    }
  }

  /**
   * A data file "<p>.dat" whose name part has no dot: its backups are named
   * "<p>_<stamp>.dat", its base name is `p`, and its backups are candidates
   * for it.
   */
  lemma DataFileNames(p: string, stamp: string)
    requires NoDot(p)
    ensures BackupName(p + EXTENSION, stamp) == p + ("_" + stamp + EXTENSION)
    ensures BaseName(p + EXTENSION) == p
    ensures IsCandidate(BackupName(p + EXTENSION, stamp), p)
  {
    ReplaceExtension(p, "_" + stamp + EXTENSION);
    ReplaceExtension(p, "");
    var b := p + ("_" + stamp + EXTENSION);
    assert b[..|p|] == p;
    assert b[|b| - |EXTENSION|..] == EXTENSION;
  }

  /** A backup of one data file is not a candidate for a data file whose name starts with another letter. */
  lemma OtherFileNames(p: string, q: string, stamp: string)
    requires NoDot(p) && p != [] && q != [] && p[0] != q[0]
    ensures !IsCandidate(BackupName(p + EXTENSION, stamp), q)
  {
    DataFileNames(p, stamp);
    var b := p + ("_" + stamp + EXTENSION);
    assert b[0] == p[0];
  }

  /**
   * The two data files: their base names are "books" and "members", and a
   * backup of either one is a candidate for that file's restore and
   * clean-up, and never for the other file's.
   */
  lemma BackupsStayWithTheirFile(stamp: string)
    ensures BaseName(BOOKS_FILE) == "books" && BaseName(MEMBERS_FILE) == "members"
    ensures IsCandidate(BackupName(BOOKS_FILE, stamp), BaseName(BOOKS_FILE))
    ensures IsCandidate(BackupName(MEMBERS_FILE, stamp), BaseName(MEMBERS_FILE))
    ensures !IsCandidate(BackupName(BOOKS_FILE, stamp), BaseName(MEMBERS_FILE))
    ensures !IsCandidate(BackupName(MEMBERS_FILE, stamp), BaseName(BOOKS_FILE))
  {
    var books, members := "books", "members";
    assert NoDot(books) && NoDot(members);
    assert BOOKS_FILE == books + EXTENSION;
    assert MEMBERS_FILE == members + EXTENSION;
    DataFileNames(books, stamp);
    DataFileNames(members, stamp);
    OtherFileNames(books, members, stamp);
    OtherFileNames(members, books, stamp);
  }

  // ==================== the directory listing ====================

  /** The names of a list of entries. */
  function Names<T(==)>(s: seq<Entry<T>>): set<string>
  {
    set e | e in s :: e.name
  }

  /** A directory holds at most one file of each name. */
  predicate DistinctNames<T(==)>(s: seq<Entry<T>>)
  {
    forall i, j :: 0 <= i < j < |s| ==> s[i].name != s[j].name
  }

  /** listFiles with the candidate filter, in listing order. */
  function Candidates<T(==)>(dir: seq<Entry<T>>, base: string): (r: seq<Entry<T>>)
    ensures |r| <= |dir|
    ensures forall e :: e in r ==> e in dir && IsCandidate(e.name, base)
    ensures forall e :: e in dir && IsCandidate(e.name, base) ==> e in r
  {
    if dir == [] then []
    else if IsCandidate(dir[0].name, base) then [dir[0]] + Candidates(dir[1..], base)
    else Candidates(dir[1..], base)
  }

  /** Candidates of a directory with distinct names have distinct names. */
  lemma {:induction false} CandidatesDistinct<T>(dir: seq<Entry<T>>, base: string)
    requires DistinctNames(dir)
    ensures DistinctNames(Candidates(dir, base))
  {
    if dir != [] {
      CandidatesDistinct(dir[1..], base);
      var rest := Candidates(dir[1..], base);
      if IsCandidate(dir[0].name, base) {
        forall e | e in rest ensures e.name != dir[0].name {
          var j :| 0 <= j < |dir[1..]| && dir[1..][j] == e;
          assert dir[j + 1] == e;
        }
      }
    }
  }

  /** Files.copy with REPLACE_EXISTING into the directory: a file of the same name is overwritten, otherwise one is added. */
  function PutEntry<T(==)>(dir: seq<Entry<T>>, e: Entry<T>): (r: seq<Entry<T>>)
    ensures e in r
    ensures forall x :: x in r ==> x == e || x in dir
    ensures forall x :: x in dir && x.name != e.name ==> x in r
    ensures Names(r) == Names(dir) + {e.name}
  {
    if dir == [] then [e]
    else if dir[0].name == e.name then [e] + dir[1..]
    else
      var rest := PutEntry(dir[1..], e);
      assert Names([dir[0]] + rest) == {dir[0].name} + Names(rest);
      assert Names(dir) == {dir[0].name} + Names(dir[1..]) by {
        assert dir == [dir[0]] + dir[1..];
      }
      [dir[0]] + rest
  }

  lemma {:induction false} PutEntryDistinct<T>(dir: seq<Entry<T>>, e: Entry<T>)
    requires DistinctNames(dir)
    ensures DistinctNames(PutEntry(dir, e))
  {
    if dir != [] && dir[0].name != e.name {
      PutEntryDistinct(dir[1..], e);
      var rest := PutEntry(dir[1..], e);
      forall x | x in rest ensures x.name != dir[0].name {
        if x != e {
          var j :| 0 <= j < |dir[1..]| && dir[1..][j] == x;
          assert dir[j + 1] == x;
        }
      }
    } else if dir != [] {
      forall x | x in dir[1..] ensures x.name != e.name {
        var j :| 0 <= j < |dir[1..]| && dir[1..][j] == x;
        assert dir[j + 1] == x;
      }
    }
  }

  /** The directory after deleting every file whose name is in `names`, in listing order. */
  function WithoutNames<T(==)>(dir: seq<Entry<T>>, names: set<string>): (r: seq<Entry<T>>)
    ensures forall e :: e in r ==> e in dir && e.name !in names
    ensures forall e :: e in dir && e.name !in names ==> e in r
  {
    if dir == [] then []
    else if dir[0].name in names then WithoutNames(dir[1..], names)
    else [dir[0]] + WithoutNames(dir[1..], names)
  }

  /** File.delete on one name. */
  function RemoveNamed<T(==)>(dir: seq<Entry<T>>, name: string): (r: seq<Entry<T>>)
    ensures forall e :: e in r ==> e in dir && e.name != name
    ensures forall e :: e in dir && e.name != name ==> e in r
  {
    WithoutNames(dir, {name})
  }

  /** Deleting a set of names, then one more name, deletes their union. */
  lemma {:induction false} WithoutNamesThenRemove<T>(dir: seq<Entry<T>>, names: set<string>, name: string)
    ensures RemoveNamed(WithoutNames(dir, names), name) == WithoutNames(dir, names + {name})
  {
    if dir != [] {
      WithoutNamesThenRemove(dir[1..], names, name);
    }
  }

  lemma {:induction false} WithoutNothing<T>(dir: seq<Entry<T>>)
    ensures WithoutNames(dir, {}) == dir
  {
    if dir != [] {
      WithoutNothing(dir[1..]);
    }
  }

  lemma {:induction false} WithoutNamesDistinct<T>(dir: seq<Entry<T>>, names: set<string>)
    requires DistinctNames(dir)
    ensures DistinctNames(WithoutNames(dir, names))
  {
    if dir != [] {
      WithoutNamesDistinct(dir[1..], names);
      forall x | x in WithoutNames(dir[1..], names) ensures x.name != dir[0].name {
        var j :| 0 <= j < |dir[1..]| && dir[1..][j] == x;
        assert dir[j + 1] == x;
      }
    }
  }

  // ==================== the newest backup ====================

  /** Position `i` holds the newest entry, and the first one listed among equally new ones. */
  predicate IsNewest<T(==)>(s: seq<Entry<T>>, i: int)
  {
    && 0 <= i < |s|
    && (forall j :: 0 <= j < |s| ==> s[j].mtime <= s[i].mtime)
    && (forall j :: 0 <= j < i ==> s[j].mtime < s[i].mtime)
  }

  /** The newest entry's position, found by scanning from the front and moving only on a strictly later time. */
  function NewestPos<T(==)>(s: seq<Entry<T>>): (i: nat)
    requires s != []
    ensures IsNewest(s, i)
  {
    if |s| == 1 then 0
    else
      var p := NewestPos(s[..|s| - 1]);
      if s[|s| - 1].mtime > s[p].mtime then |s| - 1 else p
  }

  // ==================== sorting by last-modified time ====================

  predicate SortedByMtime<T(==)>(s: seq<Entry<T>>)
  {
    forall i, j :: 0 <= i < j < |s| ==> s[i].mtime <= s[j].mtime
  }

  /** Inserts `e` into a sorted list after every entry that is not later than it. */
  function Insert<T(==)>(sorted: seq<Entry<T>>, e: Entry<T>): (r: seq<Entry<T>>)
    ensures |r| == |sorted| + 1
  {
    if sorted == [] || sorted[|sorted| - 1].mtime <= e.mtime then sorted + [e]
    else Insert(sorted[..|sorted| - 1], e) + [sorted[|sorted| - 1]]
  }

  /**
   * Insert puts `e` right after the last entry that is not later than it:
   * every entry from position `j` on is later, and the one before is not.
   */
  lemma {:induction false} InsertAt<T>(sorted: seq<Entry<T>>, e: Entry<T>, j: int)
    requires 0 <= j <= |sorted|
    requires j == 0 || sorted[j - 1].mtime <= e.mtime
    requires forall k :: j <= k < |sorted| ==> sorted[k].mtime > e.mtime
    ensures Insert(sorted, e) == sorted[..j] + [e] + sorted[j..]
  {
    if j < |sorted| {
      var front := sorted[..|sorted| - 1];
      InsertAt(front, e, j);
      assert front[..j] == sorted[..j];
      assert front[j..] + [sorted[|sorted| - 1]] == sorted[j..];
    }
  }

  /** A stable sort, oldest first, by inserting each entry in turn into the sorted prefix. */
  function SortByMtime<T(==)>(s: seq<Entry<T>>): (r: seq<Entry<T>>)
    ensures |r| == |s|
  {
    if s == [] then [] else Insert(SortByMtime(s[..|s| - 1]), s[|s| - 1])
  }

  /** Insert adds exactly one copy of the entry and loses nothing. */
  lemma {:induction false} InsertPermutes<T>(sorted: seq<Entry<T>>, e: Entry<T>)
    ensures multiset(Insert(sorted, e)) == multiset(sorted) + multiset{e}
  {
    if !(sorted == [] || sorted[|sorted| - 1].mtime <= e.mtime) {
      var front := sorted[..|sorted| - 1];
      InsertPermutes(front, e);
      assert sorted == front + [sorted[|sorted| - 1]];
    }
  }

  /** Insert into a sorted list keeps it sorted. */
  lemma {:induction false} InsertSorted<T>(sorted: seq<Entry<T>>, e: Entry<T>)
    requires SortedByMtime(sorted)
    ensures SortedByMtime(Insert(sorted, e))
  {
    if !(sorted == [] || sorted[|sorted| - 1].mtime <= e.mtime) {
      var front := sorted[..|sorted| - 1];
      var last := sorted[|sorted| - 1];
      InsertSorted(front, e);
      InsertPermutes(front, e);
      var r := Insert(front, e);
      forall i | 0 <= i < |r| ensures r[i].mtime <= last.mtime {
        assert r[i] in multiset(r);
        assert r[i] == e || r[i] in front;
      }
      var t := r + [last];
      forall i, j | 0 <= i < j < |t| ensures t[i].mtime <= t[j].mtime {
        if j < |r| {
          assert t[i] == r[i] && t[j] == r[j];
        } else {
          assert t[i] == r[i];
        }
      }
    }
  }

  /** SortByMtime orders by time and is a permutation. */
  lemma {:induction false} SortSorted<T>(s: seq<Entry<T>>)
    ensures SortedByMtime(SortByMtime(s))
    ensures multiset(SortByMtime(s)) == multiset(s)
  {
    if s != [] {
      SortSorted(s[..|s| - 1]);
      InsertSorted(SortByMtime(s[..|s| - 1]), s[|s| - 1]);
      InsertPermutes(SortByMtime(s[..|s| - 1]), s[|s| - 1]);
      assert s == s[..|s| - 1] + [s[|s| - 1]];
    }
  }

  /** Inserting an entry with a new name keeps names distinct and adds that name. */
  lemma {:induction false} InsertNames<T>(sorted: seq<Entry<T>>, e: Entry<T>)
    requires DistinctNames(sorted) && e.name !in Names(sorted)
    ensures DistinctNames(Insert(sorted, e))
    ensures Names(Insert(sorted, e)) == Names(sorted) + {e.name}
  {
    if sorted == [] || sorted[|sorted| - 1].mtime <= e.mtime {
      assert Names(sorted + [e]) == Names(sorted) + {e.name};
    } else {
      var front := sorted[..|sorted| - 1];
      var last := sorted[|sorted| - 1];
      assert sorted == front + [last];
      assert Names(sorted) == Names(front) + {last.name};
      forall i | 0 <= i < |front| ensures front[i].name != last.name {
        assert sorted[i].name != sorted[|sorted| - 1].name;
      }
      InsertNames(front, e);
      var r := Insert(front, e);
      assert Names(r + [last]) == Names(r) + {last.name};
    }
  }

  /** SortByMtime keeps the names, and keeps them distinct. */
  lemma {:induction false} SortNames<T>(s: seq<Entry<T>>)
    requires DistinctNames(s)
    ensures DistinctNames(SortByMtime(s))
    ensures Names(SortByMtime(s)) == Names(s)
  {
    if s != [] {
      var front := s[..|s| - 1];
      var last := s[|s| - 1];
      assert s == front + [last];
      assert Names(s) == Names(front) + {last.name};
      forall i | 0 <= i < |front| ensures front[i].name != last.name {
        assert s[i].name != s[|s| - 1].name;
      }
      SortNames(front);
      InsertNames(SortByMtime(front), last);
    }
  }

  // ==================== retention ====================

  /** The candidates the clean-up deletes: all but the KEEP latest in sorted order, none when there are at most KEEP. */
  function Doomed<T(==)>(dir: seq<Entry<T>>, base: string): seq<Entry<T>>
  {
    var c := Candidates(dir, base);
    if |c| <= KEEP then [] else SortByMtime(c)[..|c| - KEEP]
  }

  /** The candidates the clean-up keeps. */
  function Kept<T(==)>(dir: seq<Entry<T>>, base: string): seq<Entry<T>>
  {
    var c := Candidates(dir, base);
    if |c| <= KEEP then c else SortByMtime(c)[|c| - KEEP..]
  }

  /** cleanOldBackups: the directory after deleting the doomed candidates. */
  function Cleaned<T(==)>(dir: seq<Entry<T>>, base: string): seq<Entry<T>>
  {
    WithoutNames(dir, Names(Doomed(dir, base)))
  }

  /** With at most KEEP candidates nothing is deleted. */
  lemma CleanedFew<T>(dir: seq<Entry<T>>, base: string)
    requires |Candidates(dir, base)| <= KEEP
    ensures Cleaned(dir, base) == dir
  {
    assert Names(Doomed(dir, base)) == {};
    WithoutNothing(dir);
  }

  /** Files that are not candidates are never deleted. */
  lemma CleanedKeepsOthers<T>(dir: seq<Entry<T>>, base: string, e: Entry<T>)
    requires e in dir && !IsCandidate(e.name, base)
    ensures e in Cleaned(dir, base)
  {
    var c := Candidates(dir, base);
    if |c| > KEEP {
      SortSorted(c);
      forall d | d in Doomed(dir, base) ensures d.name != e.name {
        assert d in multiset(SortByMtime(c));
      }
    }
  }

  /** Every deleted candidate is at most as recent as every kept one. */
  lemma CleanedDropsOldest<T>(dir: seq<Entry<T>>, base: string)
    ensures forall d, k :: d in Doomed(dir, base) && k in Kept(dir, base) ==> d.mtime <= k.mtime
  {
    var c := Candidates(dir, base);
    if |c| > KEEP {
      var r := SortByMtime(c);
      SortSorted(c);
      forall d, k | d in r[..|c| - KEEP] && k in r[|c| - KEEP..] ensures d.mtime <= k.mtime {
        var p :| 0 <= p < |c| - KEEP && r[p] == d;
        var q :| 0 <= q < |r[|c| - KEEP..]| && r[|c| - KEEP..][q] == k;
        assert r[|c| - KEEP + q] == k;
      }
    }
  }

  /**
   * In a directory with distinct names, the candidates left after the
   * clean-up are exactly the kept ones: all of them when there were at most
   * KEEP, otherwise the KEEP latest.
   */
  lemma CleanedRetains<T>(dir: seq<Entry<T>>, base: string)
    requires DistinctNames(dir)
    ensures |Kept(dir, base)| == if |Candidates(dir, base)| <= KEEP then |Candidates(dir, base)| else KEEP
    ensures forall e :: e in Candidates(Cleaned(dir, base), base) <==> e in Kept(dir, base)
  {
    if |Candidates(dir, base)| <= KEEP {
      CleanedFew(dir, base);
    } else {
      forall e ensures e in Candidates(Cleaned(dir, base), base) <==> e in Kept(dir, base) {
        if e in Kept(dir, base) {
          KeptSurvive(dir, base, e);
        }
        if e in Candidates(Cleaned(dir, base), base) {
          SurvivorsKept(dir, base, e);
        }
      }
    }
  }

  /** With more than KEEP candidates, a kept candidate is not deleted. */
  lemma KeptSurvive<T>(dir: seq<Entry<T>>, base: string, e: Entry<T>)
    requires DistinctNames(dir) && |Candidates(dir, base)| > KEEP
    requires e in Kept(dir, base)
    ensures e in Candidates(Cleaned(dir, base), base)
  {
    var c := Candidates(dir, base);
    var r := SortByMtime(c);
    SortSorted(c);
    CandidatesDistinct(dir, base);
    SortNames(c);
    var q :| |c| - KEEP <= q < |c| && r[q] == e;
    assert e in multiset(c);
    forall d | d in r[..|c| - KEEP] ensures d.name != e.name {
      var p :| 0 <= p < |c| - KEEP && r[p] == d;
    }
  }

  /** With more than KEEP candidates, a candidate left after the clean-up is a kept one. */
  lemma SurvivorsKept<T>(dir: seq<Entry<T>>, base: string, e: Entry<T>)
    requires |Candidates(dir, base)| > KEEP
    requires e in Candidates(Cleaned(dir, base), base)
    ensures e in Kept(dir, base)
  {
    var c := Candidates(dir, base);
    var r := SortByMtime(c);
    var doomed := Doomed(dir, base);
    assert doomed == r[..|c| - KEEP];
    assert e in dir && IsCandidate(e.name, base) && e.name !in Names(doomed);
    SortSorted(c);
    assert e in multiset(r);
    var q :| 0 <= q < |r| && r[q] == e;
    forall p | 0 <= p < |c| - KEEP ensures r[p].name in Names(doomed) {
      assert r[p] == doomed[p];
    }
    assert r[|c| - KEEP..][q - (|c| - KEEP)] == e;
  }

  // ==================== restore and load ====================

  /** restoreFromBackup: copies the newest candidate over the file, when there is a candidate. */
  function Restore<T(==)>(files: map<string, Stored<T>>, dir: seq<Entry<T>>, fileName: string): map<string, Stored<T>>
  {
    var c := Candidates(dir, BaseName(fileName));
    if c == [] then files else files[fileName := c[NewestPos(c)].content]
  }

  /** Restoring twice from the same directory is restoring once. */
  lemma RestoreIdempotent<T>(files: map<string, Stored<T>>, dir: seq<Entry<T>>, fileName: string)
    ensures Restore(Restore(files, dir, fileName), dir, fileName) == Restore(files, dir, fileName)
  {
  }

  /** createBackup: nothing for an absent file; otherwise the copy is put in the directory, then the clean-up runs. */
  function BackedUp<T(==)>(files: map<string, Stored<T>>, dir: seq<Entry<T>>, fileName: string, now: DateTime, clock: int)
    : seq<Entry<T>>
    requires ValidDateTime(now)
  {
    if fileName !in files then dir
    else Cleaned(PutEntry(dir, Entry(BackupName(fileName, Stamp(now)), clock, files[fileName])), BaseName(fileName))
  }

  /** In a sorted list with distinct names, an entry later than every other one is the last. */
  lemma MaxIsLast<T>(r: seq<Entry<T>>, q: int)
    requires SortedByMtime(r) && DistinctNames(r) && 0 <= q < |r|
    requires forall p :: 0 <= p < |r| && r[p] != r[q] ==> r[p].mtime < r[q].mtime
    ensures q == |r| - 1
  {
    var last := r[|r| - 1];
  }

  /** A candidate later than every other entry survives the clean-up. */
  lemma LatestSurvivesCleanup<T>(dir: seq<Entry<T>>, base: string, e: Entry<T>)
    requires DistinctNames(dir) && e in dir && IsCandidate(e.name, base)
    requires forall x :: x in dir && x != e ==> x.mtime < e.mtime
    ensures e in Candidates(Cleaned(dir, base), base)
  {
    var c := Candidates(dir, base);
    CleanedRetains(dir, base);
    if |c| > KEEP {
      var r := SortByMtime(c);
      SortSorted(c);
      CandidatesDistinct(dir, base);
      SortNames(c);
      assert e in multiset(r);
      var q :| 0 <= q < |r| && r[q] == e;
      forall p | 0 <= p < |r| && r[p] != r[q] ensures r[p].mtime < r[q].mtime {
        assert r[p] in multiset(c);
      }
      MaxIsLast(r, q);
      assert r[|r| - KEEP..][KEEP - 1] == e;
    }
  }

  /** The newest position holds the entry that is later than every other one. */
  lemma NewestIsLatest<T>(s: seq<Entry<T>>, e: Entry<T>)
    requires e in s
    requires forall x :: x in s && x != e ==> x.mtime < e.mtime
    ensures s[NewestPos(s)] == e
  {
    var j :| 0 <= j < |s| && s[j] == e;
    assert s[j].mtime <= s[NewestPos(s)].mtime;
  }

  /**
   * The reason for taking the backup before writing: when writing a data
   * file fails and leaves it unreadable, the restore that follows copies back
   * exactly the content the file had before the save, provided the backup
   * clock is later than every backup already in the directory and the
   * backup's name is a candidate for the file (as it is for both data files).
   */
  lemma FailedSaveRestores<T>(files: map<string, Stored<T>>, dir: seq<Entry<T>>, fileName: string,
                              now: DateTime, clock: int)
    requires ValidDateTime(now) && DistinctNames(dir)
    requires IsCandidate(BackupName(fileName, Stamp(now)), BaseName(fileName))
    requires fileName in files
    requires forall x :: x in dir ==> x.mtime < clock
    ensures Restore(files[fileName := Corrupt], BackedUp(files, dir, fileName, now, clock), fileName) == files
  {
    var base := BaseName(fileName);
    var e := Entry(BackupName(fileName, Stamp(now)), clock, files[fileName]);
    var backedUp := Cleaned(PutEntry(dir, e), base);
    assert BackedUp(files, dir, fileName, now, clock) == backedUp;
    NewBackupIsNewest(dir, base, e);
  }

  /** A candidate copied in later than every entry of the directory is what the next restore picks. */
  lemma NewBackupIsNewest<T>(dir: seq<Entry<T>>, base: string, e: Entry<T>)
    requires DistinctNames(dir) && IsCandidate(e.name, base)
    requires forall x :: x in dir ==> x.mtime < e.mtime
    ensures var c := Candidates(Cleaned(PutEntry(dir, e), base), base);
            c != [] && c[NewestPos(c)] == e
  {
    var d1 := PutEntry(dir, e);
    PutEntryDistinct(dir, e);
    LatestSurvivesCleanup(d1, base, e);
    var c := Candidates(Cleaned(d1, base), base);
    forall x | x in c && x != e ensures x.mtime < e.mtime {
      assert x in d1;
    }
    NewestIsLatest(c, e);
  }

  /** What loadBooks / loadMembers return: an empty map, the stored value, or no answer within the fuel. */
  datatype Load<T> = Empty | Contents(value: T) | Unfinished

  /**
   * loadBooks / loadMembers, with `fuel` bounding the reload after a
   * restore: an absent file, and one that cannot be opened, loads as empty;
   * a corrupt file is restored from the newest candidate and loaded again,
   * or loads as empty when there is no candidate.
   */
  function LoadOutcome<T(==)>(files: map<string, Stored<T>>, dir: seq<Entry<T>>, fileName: string, fuel: nat): Load<T>
    decreases fuel
  {
    if fileName !in files then Empty
    else if files[fileName].Readable? then Contents(files[fileName].value)
    else if files[fileName].Unopenable? then Empty
    else if Candidates(dir, BaseName(fileName)) == [] then Empty
    else if fuel == 0 then Unfinished
    else LoadOutcome(Restore(files, dir, fileName), dir, fileName, fuel - 1)
  }

  /** An unreadable file whose newest backup is readable loads that backup's value after one reload. */
  lemma LoadRecovers<T>(files: map<string, Stored<T>>, dir: seq<Entry<T>>, fileName: string, fuel: nat)
    requires fileName in files && files[fileName].Corrupt?
    requires Candidates(dir, BaseName(fileName)) != []
    requires fuel >= 1
    ensures var c := Candidates(dir, BaseName(fileName));
            c[NewestPos(c)].content.Readable? ==> LoadOutcome(files, dir, fileName, fuel) == Contents(c[NewestPos(c)].content.value)
  {
  }

  /**
   * An unreadable file whose newest backup is unreadable too is restored
   * and reloaded forever: no fuel is enough.
   */
  lemma {:induction false} LoadDiverges<T>(files: map<string, Stored<T>>, dir: seq<Entry<T>>, fileName: string, fuel: nat)
    requires fileName in files && files[fileName].Corrupt?
    requires var c := Candidates(dir, BaseName(fileName));
             c != [] && c[NewestPos(c)].content.Corrupt?
    ensures LoadOutcome(files, dir, fileName, fuel) == Unfinished
    decreases fuel
  {
    if fuel > 0 {
      LoadDiverges(Restore(files, dir, fileName), dir, fileName, fuel - 1);
    }
  }
}
