/** The course store: the record collection and the key-to-position index
    that main.go keeps in the globals `data` and `index`, and the operations
    that read and change them. Operating-system outcomes are parameters: the
    rows a file read produced (or that the read failed), and whether creating
    the data file for a save succeeded. The clock reading is the parameter
    `stamp`. */
module Catalog {
  import opened Records
  import opened Persistence
  import opened Indexing

  datatype StoreError =
    | AlreadyExists(cid: string)   // "<cid> already exists"
    | CannotBeFound(key: string)   // "<key> cannot be found!"
    | FileError                    // the data file could not be stat'ed, opened, read or created

  /** A Go `error`: Ok is nil. */
  datatype Status = Ok | Failed(err: StoreError)

  class Store {
    var data: seq<Course>
    var index: map<string, int>
    /** The rows of the data file as the last successful save left them. */
    ghost var persisted: seq<Row>

    /** The index agrees with the collection. */
    ghost predicate Consistent()
      reads this
    {
      IndexConsistent(data, index)
    }

    /** The state that insertions and reindexing deletions keep: a consistent
        index over records with distinct identifiers. */
    ghost predicate Valid()
      reads this
    {
      Consistent() && Distinct(data)
    }

    /** What search and deleteEntry need to index `data` without a
        run-time panic. */
    predicate InBounds(key: string)
      reads this
    {
      key in index ==> 0 <= index[key] < |data|
    }

    /** Program start: empty collection, no index entries (Go's nil map reads as
        empty), and whatever the data file already holds. */
    constructor (ghost onDisk: seq<Row>)
      ensures data == [] && index == map[] && persisted == onDisk
      ensures Valid()
    {
      data := [];
      index := map[];
      persisted := onDisk;
    }

    /** readCSVFile: appends one record per row to the collection (it does not
        replace it). `file` is None when stat, open or CSV parsing failed, and
        otherwise the rows the data file holds. */
    method ReadCSVFile(file: Option<seq<Row>>) returns (st: Status)
      requires file.Some? ==> file.value == persisted && Loadable(file.value)
      modifies this`data
      ensures file.None? ==> st == Failed(FileError) && data == old(data)
      ensures file.Some? ==> st == Ok && data == old(data) + FromRows(persisted)
    {
      if file.None? {
        return Failed(FileError);
      }
      var rows := file.value;
      var i := 0;
      while i < |rows|
        invariant 0 <= i <= |rows|
        invariant data == old(data) + FromRows(rows[..i])
      {
        assert rows[..i + 1][..i] == rows[..i];
        data := data + [RecordOf(rows[i])];
        i := i + 1;
      }
      assert rows[..i] == rows;
      return Ok;
    }

    /** saveCSVFile: when the file can be created, it is overwritten with one
        row per record; write errors are ignored. */
    method SaveCSVFile(canCreate: bool) returns (st: Status)
      modifies this`persisted
      ensures canCreate ==> st == Ok && persisted == ToRows(data)
      ensures !canCreate ==> st == Failed(FileError) && persisted == old(persisted)
    {
      if !canCreate {
        return Failed(FileError);
      }
      var written: seq<Row> := [];
      var i := 0;
      while i < |data|
        invariant 0 <= i <= |data|
        invariant written == ToRows(data[..i])
      {
        assert data[..i + 1][..i] == data[..i];
        written := written + [RowOf(data[i])];
        i := i + 1;
      }
      assert data[..i] == data;
      persisted := written;
      return Ok;
    }

    /** createIndex: replaces the index by one built from the collection. */
    method CreateIndex()
      modifies this`index
      ensures index == BuildIndex(data)
      ensures Consistent()
    {
      index := map[];
      var i := 0;
      while i < |data|
        invariant 0 <= i <= |data|
        invariant index == BuildIndex(data[..i])
      {
        assert data[..i + 1][..i] == data[..i];
        index := index[data[i].cid := i];
        i := i + 1;
      }
      assert data[..i] == data;
      BuildIndexConsistent(data);
    }

    /** insert: refuses an identifier the index already holds; otherwise
        stamps the record, appends it, rebuilds the index and saves. A failed
        save is reported but the in-memory change stays. */
    method Insert(c: Course, stamp: string, canCreate: bool) returns (st: Status)
      modifies this
      ensures c.cid in old(index) ==>
        && st == Failed(AlreadyExists(c.cid))
        && data == old(data) && index == old(index) && persisted == old(persisted)
      ensures c.cid !in old(index) ==>
        && data == old(data) + [c.(cprereq := stamp)]
        && index == BuildIndex(data) && Consistent()
        && index[c.cid] == |data| - 1
        && (canCreate ==> st == Ok && persisted == ToRows(data))
        && (!canCreate ==> st == Failed(FileError) && persisted == old(persisted))
      ensures old(Valid()) ==> Valid()
    {
      if c.cid in index {
        return Failed(AlreadyExists(c.cid));
      }
      ghost var before := data;
      ghost var wasValid := Valid();
      if wasValid {
        InsertFresh(data, index, c.(cprereq := stamp));
      }
      data := data + [c.(cprereq := stamp)];
      CreateIndex();
      assert data[..|data| - 1] == before;
      st := SaveCSVFile(canCreate);
    }

    /** deleteEntry as the source writes it: removes the record the index
        points to, but only deletes `key` from the index, so the positions of
        the later records go stale (see Indexing.DeleteAsWrittenConsistentIff). */
    method DeleteEntry(key: string, canCreate: bool) returns (st: Status)
      requires InBounds(key)
      modifies this
      ensures key !in old(index) ==>
        && st == Failed(CannotBeFound(key))
        && data == old(data) && index == old(index) && persisted == old(persisted)
      ensures key in old(index) ==>
        && data == Spliced(old(data), old(index)[key])
        && index == old(index) - {key}
        && (canCreate ==> st == Ok && persisted == ToRows(data))
        && (!canCreate ==> st == Failed(FileError) && persisted == old(persisted))
    {
      if key !in index {
        return Failed(CannotBeFound(key));
      }
      var i := index[key];
      data := data[..i] + data[i + 1..];
      index := index - {key};
      st := SaveCSVFile(canCreate);
    }

    /** deleteEntry with the index rebuilt after the splice, as insert does
        (main.go:131): the index stays consistent, and with distinct identifiers the
        deleted key is gone from it while every other key stays. */
    method DeleteEntryReindexed(key: string, canCreate: bool) returns (st: Status)
      requires InBounds(key)
      modifies this
      ensures key !in old(index) ==>
        && st == Failed(CannotBeFound(key))
        && data == old(data) && index == old(index) && persisted == old(persisted)
      ensures key in old(index) ==>
        && data == Spliced(old(data), old(index)[key])
        && index == BuildIndex(data) && Consistent()
        && (canCreate ==> st == Ok && persisted == ToRows(data))
        && (!canCreate ==> st == Failed(FileError) && persisted == old(persisted))
      ensures key in old(index) && old(Valid()) ==> Valid() && index.Keys == old(index).Keys - {key}
      ensures old(Valid()) ==> Valid()
    {
      if key !in index {
        return Failed(CannotBeFound(key));
      }
      var i := index[key];
      if Valid() {
        DeleteReindexed(data, index, key);
      }
      data := data[..i] + data[i + 1..];
      CreateIndex();
      st := SaveCSVFile(canCreate);
    }

    /** search: a hit overwrites the stored record's third field with the
        timestamp and returns the record; the index is not touched. */
    method Search(key: string, stamp: string) returns (r: Option<Course>)
      requires InBounds(key)
      modifies this`data
      ensures key !in index ==> r == None && data == old(data)
      ensures key in index ==>
        && data == old(data)[index[key] := old(data)[index[key]].(cprereq := stamp)]
        && r == Some(data[index[key]])
      ensures key in index && old(Consistent()) ==> r.Some? && r.value.cid == key
      ensures old(Consistent()) ==> Consistent()
      ensures old(Valid()) ==> Valid()
    {
      if key !in index {
        return None;
      }
      var i := index[key];
      data := data[i := data[i].(cprereq := stamp)];
      r := Some(data[i]);
    }

    /** list: the lines of all records, in collection order. */
    method List() returns (all: string)
      ensures all == Render(data)
    {
      all := "";
      var i := 0;
      while i < |data|
        invariant 0 <= i <= |data|
        invariant all == Render(data[..i])
      {
        RenderAt(data, i);
        all := all + Line(data[i]);
        i := i + 1;
      }
      assert data[..i] == data;
    }
  }

  /** An example session on a store whose data file can always be created:
      inserting CS101 succeeds, a search finds it by identifier and name, and
      it lists as one line; a second CS101 is refused, and after deleting it a
      search misses. */
  method Walkthrough(t1: string, t2: string, t3: string, t4: string)
    returns (first: Status, hit: Option<Course>, listed: string, dup: Status, deleted: Status, found: Option<Course>)
    ensures first == Ok
    ensures hit == Some(Course("CS101", "Intro", t2))
    ensures listed == "CS101 Intro " + t2 + "\n"
    ensures dup == Failed(AlreadyExists("CS101"))
    ensures deleted == Ok
    ensures found == None
  {
    var s := new Store([]);
    var c := InitS("CS101", "Intro", "none", t1);
    first := s.Insert(c.value, t1, true);
    assert s.data == [Course("CS101", "Intro", t1)];
    assert "CS101" in s.index && s.index["CS101"] == 0;
    hit := s.Search("CS101", t2);
    var stored := Course("CS101", "Intro", t2);
    assert s.data == [stored];
    listed := s.List();
    RenderOne(stored);
    var c2 := InitS("CS101", "Intro2", "none", t3);
    dup := s.Insert(c2.value, t3, true);
    deleted := s.DeleteEntry("CS101", true);
    assert s.index == map[];
    found := s.Search("CS101", t4);
  }
}
