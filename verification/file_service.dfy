/**
 * services/FileService.java: the data directory, a map from file name to
 * content, and the backup directory, a listing of entries. The serialized
 * form of the books map and of the members map is an opaque value of type T.
 */
module Persistence {
  import opened Wrappers
  import opened Backups

  /**
   * The Arrays.sort call of cleanOldBackups, oldest first. Arrays.sort on
   * objects is stable, and so is this insertion sort: the result is
   * SortByMtime of the array's old contents.
   */
  method SortBackups<T>(a: array<Entry<T>>)
    modifies a
    ensures a[..] == SortByMtime(old(a[..]))
  {
    var i := 0;
    while i < a.Length
      invariant 0 <= i <= a.Length
      invariant a[..i] == SortByMtime(old(a[..])[..i])
      invariant a[i..] == old(a[..])[i..]
    {
      assert old(a[..])[..i + 1][..i] == old(a[..])[..i];
      InsertInPlace(a, i);
      i := i + 1;
    }
    assert a[..a.Length] == a[..];
    assert old(a[..])[..a.Length] == old(a[..]);
  }

  /** One pass of the sort: shifts the later entries of `a[..i]` up by one and drops `a[i]` into the gap. */
  method InsertInPlace<T>(a: array<Entry<T>>, i: nat)
    requires i < a.Length
    modifies a
    ensures a[..i + 1] == Insert(old(a[..i]), old(a[i]))
    ensures a[i + 1..] == old(a[i + 1..])
  {
    var x := a[i];
    ghost var sorted := a[..i];
    var j := ShiftLater(a, i, x.mtime);
    a[j] := x;
    InsertAt(sorted, x, j);
    ghost var placed := sorted[..j] + [x] + sorted[j..];
    assert forall k :: 0 <= k < j ==> placed[k] == sorted[k];
    assert forall k :: j < k <= i ==> placed[k] == sorted[k - 1];
    assert a[..i + 1] == placed;
  }

  /**
   * The shifting loop of one insertion pass: moves up by one place, from the
   * back, every entry of `a[..i]` later than `mtime`, stopping at the first
   * one that is not; `j` is the gap left behind.
   */
  method ShiftLater<T>(a: array<Entry<T>>, i: nat, mtime: int) returns (j: nat)
    requires i < a.Length
    modifies a
    ensures j <= i
    ensures forall k :: 0 <= k < j ==> a[k] == old(a[k])
    ensures forall k :: j < k <= i ==> a[k] == old(a[k - 1])
    ensures forall k :: i < k < a.Length ==> a[k] == old(a[k])
    ensures j == 0 || a[j - 1].mtime <= mtime
    ensures forall k :: j <= k < i ==> old(a[k]).mtime > mtime
  {
    j := i;
    while j > 0 && a[j - 1].mtime > mtime
      invariant j <= i
      invariant forall k :: 0 <= k < j ==> a[k] == old(a[k])
      invariant forall k :: j < k <= i ==> a[k] == old(a[k - 1])
      invariant forall k :: i < k < a.Length ==> a[k] == old(a[k])
      invariant forall k :: j <= k < i ==> old(a[k]).mtime > mtime
    {
      a[j] := a[j - 1];
      j := j - 1;
    }
  }

  /**
   * The max-scan of restoreFromBackup: starts with the first candidate and
   * moves only to a strictly later one, so the first of the latest wins.
   */
  method NewestIndex<T>(listed: seq<Entry<T>>) returns (best: nat)
    requires listed != []
    ensures IsNewest(listed, best)
    ensures best == NewestPos(listed)
  {
    best := 0;
    var k := 0;
    while k < |listed|
      invariant 0 <= k <= |listed|
      invariant k == 0 ==> best == 0
      invariant k > 0 ==> best == NewestPos(listed[..k])
    {
      if k > 0 {
        assert listed[..k + 1][..k] == listed[..k];
      }
      if listed[k].mtime > listed[best].mtime {
        best := k;
      }
      k := k + 1;
    }
    assert listed[..|listed|] == listed;
  }

  class FileService<T(==)> {
    /** The data directory: file name to content; an absent key is a file that does not exist. */
    var files: map<string, Stored<T>>
    /** The backup directory, in listing order. */
    var backups: seq<Entry<T>>

    /** A directory holds at most one file of each name. */
    ghost predicate Valid()
      reads this
    {
      DistinctNames(backups)
    }

    constructor (files: map<string, Stored<T>>, backups: seq<Entry<T>>)
      requires DistinctNames(backups)
      ensures Valid()
      ensures this.files == files && this.backups == backups
    {
      this.files := files;
      this.backups := backups;
    }

    /**
     * cleanOldBackups: with more than KEEP candidates, sorts them oldest
     * first and deletes all but the last KEEP; otherwise deletes nothing.
     */
    method CleanOldBackups(fileName: string)
      requires Valid()
      modifies this
      ensures Valid()
      ensures backups == Cleaned(old(backups), BaseName(fileName))
      ensures files == old(files)
    {
      var base := BaseName(fileName);
      var listed := Candidates(backups, base);
      if |listed| <= KEEP {
        CleanedFew(backups, base);
        return;
      }
      var a := new Entry<T>[|listed|](k requires 0 <= k < |listed| => listed[k]);
      assert a[..] == listed;
      SortBackups(a);
      var toDelete := a.Length - KEEP;
      DeleteFirst(a, toDelete);
      assert a[..toDelete] == Doomed(old(backups), base);
      WithoutNamesDistinct(old(backups), Names(a[..toDelete]));
    }

    /** The deletion loop of cleanOldBackups: deletes the first `count` files of the sorted array. */
    method DeleteFirst(a: array<Entry<T>>, count: nat)
      requires count <= a.Length
      modifies this
      ensures backups == WithoutNames(old(backups), Names(a[..count]))
      ensures files == old(files)
    {
      WithoutNothing(backups);
      assert Names(a[..0]) == {};
      var i := 0;
      while i < count
        invariant 0 <= i <= count
        invariant backups == WithoutNames(old(backups), Names(a[..i]))
        invariant files == old(files)
      {
        WithoutNamesThenRemove(old(backups), Names(a[..i]), a[i].name);
        assert Names(a[..i + 1]) == Names(a[..i]) + {a[i].name} by {
          assert a[..i + 1] == a[..i] + [a[i]];
        }
        backups := RemoveNamed(backups, a[i].name);
        i := i + 1;
      }
    }

    /**
     * createBackup: false, with nothing copied, when the file does not exist;
     * otherwise the file is copied under its backup name (overwriting a backup
     * taken in the same second), stamped `clock`, and the clean-up runs.
     */
    method CreateBackup(fileName: string, now: DateTime, clock: int) returns (ok: bool)
      requires Valid() && ValidDateTime(now)
      modifies this
      ensures Valid()
      ensures ok == (fileName in old(files))
      ensures backups == BackedUp(old(files), old(backups), fileName, now, clock)
      ensures files == old(files)
    {
      if fileName !in files {
        return false;
      }
      var copy := Entry(BackupName(fileName, Stamp(now)), clock, files[fileName]);
      PutEntryDistinct(backups, copy);
      backups := PutEntry(backups, copy);
      CleanOldBackups(fileName);
      return true;
    }

    /**
     * restoreFromBackup: false when no backup is a candidate; otherwise the
     * newest candidate is copied over the file.
     */
    method RestoreFromBackup(fileName: string) returns (ok: bool)
      requires Valid()
      modifies this
      ensures Valid()
      ensures ok == (Candidates(old(backups), BaseName(fileName)) != [])
      ensures files == Restore(old(files), old(backups), fileName)
      ensures backups == old(backups)
    {
      var listed := Candidates(backups, BaseName(fileName));
      if listed == [] {
        return false;
      }
      var newest := NewestIndex(listed);
      files := files[fileName := listed[newest].content];
      return true;
    }

    /**
     * saveBooks / saveMembers on one data file: nothing at all for a null
     * collection; otherwise a backup first, then the write. `written` says
     * whether the write succeeded; a failed write leaves the file unreadable
     * and is followed by a restore.
     */
    method SaveFile(fileName: string, data: Option<T>, now: DateTime, clock: int, written: bool) returns (ok: bool)
      requires Valid() && ValidDateTime(now)
      modifies this
      ensures Valid()
      ensures ok == (data.Some? && written)
      ensures data.None? ==> files == old(files) && backups == old(backups)
      ensures data.Some? ==> backups == BackedUp(old(files), old(backups), fileName, now, clock)
      ensures data.Some? && written ==> files == old(files)[fileName := Readable(data.value)]
      ensures data.Some? && !written ==> files == Restore(old(files)[fileName := Corrupt], backups, fileName)
    {
      if data.None? {
        return false;
      }
      var backedUp := CreateBackup(fileName, now, clock);
      if written {
        files := files[fileName := Readable(data.value)];
        return true;
      }
      files := files[fileName := Corrupt];
      var restored := RestoreFromBackup(fileName);
      return false;
    }

    /**
     * saveBooks. When the write fails, the file is restored from the newest
     * backup; that gives it back the content it had before the call, provided
     * it existed and the backup clock is later than every existing backup.
     */
    method SaveBooks(books: Option<T>, now: DateTime, clock: int, written: bool) returns (ok: bool)
      requires Valid() && ValidDateTime(now)
      modifies this
      ensures Valid()
      ensures ok == (books.Some? && written)
      ensures books.None? ==> files == old(files) && backups == old(backups)
      ensures books.Some? ==> backups == BackedUp(old(files), old(backups), BOOKS_FILE, now, clock)
      ensures books.Some? && written ==> files == old(files)[BOOKS_FILE := Readable(books.value)]
      ensures books.Some? && !written ==> files == Restore(old(files)[BOOKS_FILE := Corrupt], backups, BOOKS_FILE)
      ensures (books.Some? && !written && BOOKS_FILE in old(files) && forall x :: x in old(backups) ==> x.mtime < clock)
                ==> files == old(files)
    {
      ok := SaveFile(BOOKS_FILE, books, now, clock, written);
      if books.Some? && !written && BOOKS_FILE in old(files) && (forall x :: x in old(backups) ==> x.mtime < clock) {
        BackupsStayWithTheirFile(Stamp(now));
        FailedSaveRestores(old(files), old(backups), BOOKS_FILE, now, clock);
      }
    }

    /** saveMembers, with the same guarantee for the members file. */
    method SaveMembers(members: Option<T>, now: DateTime, clock: int, written: bool) returns (ok: bool)
      requires Valid() && ValidDateTime(now)
      modifies this
      ensures Valid()
      ensures ok == (members.Some? && written)
      ensures members.None? ==> files == old(files) && backups == old(backups)
      ensures members.Some? ==> backups == BackedUp(old(files), old(backups), MEMBERS_FILE, now, clock)
      ensures members.Some? && written ==> files == old(files)[MEMBERS_FILE := Readable(members.value)]
      ensures members.Some? && !written ==> files == Restore(old(files)[MEMBERS_FILE := Corrupt], backups, MEMBERS_FILE)
      ensures (members.Some? && !written && MEMBERS_FILE in old(files) && forall x :: x in old(backups) ==> x.mtime < clock)
                ==> files == old(files)
    {
      ok := SaveFile(MEMBERS_FILE, members, now, clock, written);
      if members.Some? && !written && MEMBERS_FILE in old(files) && (forall x :: x in old(backups) ==> x.mtime < clock) {
        BackupsStayWithTheirFile(Stamp(now));
        FailedSaveRestores(old(files), old(backups), MEMBERS_FILE, now, clock);
      }
    }

    /**
     * loadBooks / loadMembers on one data file, with `fuel` bounding the
     * reloads after a restore: the answer is LoadOutcome, and the file ends up
     * restored whenever it was corrupt. A file that cannot be opened loads as
     * empty and is not restored.
     */
    method LoadFile(fileName: string, fuel: nat) returns (r: Load<T>)
      requires Valid()
      modifies this
      ensures Valid()
      ensures r == LoadOutcome(old(files), old(backups), fileName, fuel)
      ensures backups == old(backups)
      ensures files == if fileName in old(files) && old(files)[fileName].Corrupt?
                       then Restore(old(files), old(backups), fileName)
                       else old(files)
      decreases fuel
    {
      if fileName !in files {
        return Empty;
      }
      match files[fileName]
      case Readable(v) =>
        return Contents(v);
      case Unopenable =>
        return Empty;
      case Corrupt =>
        var restored := RestoreFromBackup(fileName);
        if !restored {
          return Empty;
        }
        if fuel == 0 {
          return Unfinished;
        }
        r := LoadFile(fileName, fuel - 1);
        RestoreIdempotent(old(files), old(backups), fileName);
    }

    /** loadBooks: the books file ends up restored whenever it was corrupt. */
    method LoadBooks(fuel: nat) returns (r: Load<T>)
      requires Valid()
      modifies this
      ensures Valid()
      ensures r == LoadOutcome(old(files), old(backups), BOOKS_FILE, fuel)
      ensures backups == old(backups)
      ensures files == if BOOKS_FILE in old(files) && old(files)[BOOKS_FILE].Corrupt?
                       then Restore(old(files), old(backups), BOOKS_FILE)
                       else old(files)
    {
      r := LoadFile(BOOKS_FILE, fuel);
    }

    /** loadMembers: the members file ends up restored whenever it was corrupt. */
    method LoadMembers(fuel: nat) returns (r: Load<T>)
      requires Valid()
      modifies this
      ensures Valid()
      ensures r == LoadOutcome(old(files), old(backups), MEMBERS_FILE, fuel)
      ensures backups == old(backups)
      ensures files == if MEMBERS_FILE in old(files) && old(files)[MEMBERS_FILE].Corrupt?
                       then Restore(old(files), old(backups), MEMBERS_FILE)
                       else old(files)
    {
      r := LoadFile(MEMBERS_FILE, fuel);
    }
  }
}
