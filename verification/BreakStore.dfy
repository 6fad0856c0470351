/**
 The breakpoint store, breakpoints.c: a hash table of GTrees of breakpoint structures.
 This file has the storage itself; the operations on it are in BreakOperations.dfy.
 */
module BreakStore {
  import opened Common
  import opened BreakModel
  import opened BreakTree

  const FILENAME_MAX: nat := 4096
  const CONDITION_MAX_LENGTH: nat := 1024

  /** One GTree: breakpoint structures by line. */
  type Bucket = map<int, Breakpoint>

  datatype BreakState = NotSet | Enabled | Disabled

  /** The structures of one tree are live and have the values of `t`. */
  ghost predicate BucketHolds(m: Bucket, t: LineTree, repr: set<Breakpoint>)
    reads repr
  {
    m.Keys == t.Keys && forall l | l in m :: m[l] in repr && m[l].Value() == t[l] && !m[l].freed
  }

  lemma EmptyBucket(repr: set<Breakpoint>)
    ensures BucketHolds(map[], map[], repr)
  {
  }

  lemma BucketInsert(m: Bucket, t: LineTree, repr: set<Breakpoint>, bp: Breakpoint)
    requires BucketHolds(m, t, repr) && !bp.freed
    ensures BucketHolds(m, t, repr + {bp})
    ensures BucketHolds(m[bp.line := bp], t[bp.line := bp.Value()], repr + {bp})
  {
  }

  lemma BucketDelete(m: Bucket, t: LineTree, repr: set<Breakpoint>, line: int)
    requires BucketHolds(m, t, repr)
    ensures BucketHolds(m - {line}, t - {line}, repr)
  {
  }

  /** The keys of a tree in the order of g_tree_foreach. */
  ghost predicate InOrder(lines: seq<int>, keys: set<int>) {
    && (forall i, j | 0 <= i < j < |lines| :: lines[i] < lines[j])
    && (forall l :: l in lines <==> l in keys)
  }

  lemma {:induction false} Least(keys: set<int>) returns (least: int)
    requires keys != {}
    ensures least in keys && forall x | x in keys :: least <= x
  {
    least := Member(keys);
    var rest := keys - {least};
    if rest != {} {
      var m := Least(rest);
      assert forall x | x in keys :: x == least || x in rest;
      least := if least < m then least else m;
    } else {
      assert keys == {least};
    }
  }

  method KeysInOrder(keys: set<int>) returns (lines: seq<int>)
    ensures InOrder(lines, keys)
  {
    lines := [];
    var rest := keys;
    while rest != {}
      invariant rest <= keys
      invariant forall l :: l in lines <==> l in keys - rest
      invariant forall i, l | 0 <= i < |lines| && l in rest :: lines[i] < l
      invariant forall i, j | 0 <= i < j < |lines| :: lines[i] < lines[j]
      decreases rest
    {
      ghost var least := Least(rest);
      var m :| m in rest && forall x | x in rest :: m <= x;
      lines := lines + [m];
      rest := rest - {m};
    }
  }

  ghost predicate Listed(list: seq<Breakpoint>, file: string, line: int)
    reads list
  {
    exists i :: 0 <= i < |list| && list[i].file == file && list[i].line == line
  }

  lemma ListedJoined(a: seq<Breakpoint>, b: seq<Breakpoint>, file: string, line: int)
    ensures Listed(a, file, line) || Listed(b, file, line) ==> Listed(a + b, file, line)
  {
    if Listed(a, file, line) {
      var i :| 0 <= i < |a| && a[i].file == file && a[i].line == line;
      assert (a + b)[i] == a[i];
    } else if Listed(b, file, line) {
      var i :| 0 <= i < |b| && b[i].file == file && b[i].line == line;
      assert (a + b)[|a| + i] == b[i];
    }
  }

  class BreakStore {
    /** The hash table of GTrees. */
    var files: map<string, Bucket>
    /** The values of the stored breakpoints. */
    ghost var contents: Store
    /** The structures that were ever stored. */
    ghost var repr: set<Breakpoint>

    ghost predicate Valid()
      reads `files, `contents, `repr, repr
    {
      && files.Keys == contents.Keys
      && Keyed(contents)
      && forall f | f in files :: BucketHolds(files[f], contents[f], repr)
    }

    ghost predicate Stored(bp: Breakpoint)
      reads `files, bp`file, bp`line
    {
      bp.file in files && bp.line in files[bp.file] && files[bp.file][bp.line] == bp
    }

    constructor ()
      ensures Valid() && contents == map[] && repr == {}
    {
      files, contents, repr := map[], map[], {};
    }

    /** breaks_lookup_breakpoint */
    method Lookup(file: string, line: int) returns (bp: Breakpoint?)
      requires Valid()
      ensures bp == null <==> !Has(contents, file, line)
      ensures bp != null ==> Stored(bp) && bp.file == file && bp.line == line && bp.Value() == contents[file][line]
      ensures bp != null ==> bp in repr && !bp.freed
    {
      bp := null;
      if file in files && line in files[file] {
        StoredAt(file, line);
        bp := files[file][line];
      }
    }

    /** breaks_get_state */
    method GetState(file: string, line: int) returns (bs: BreakState)
      requires Valid()
      ensures bs == if !Has(contents, file, line) then NotSet
                    else if contents[file][line].enabled then Enabled else Disabled
    {
      bs := NotSet;
      if file in files && line in files[file] {
        StoredAt(file, line);
        bs := if files[file][line].enabled then Enabled else Disabled;
      }
    }

    /** breaks_get_for_document: the structures of a file by ascending line. */
    method GetForDocument(file: string) returns (list: seq<Breakpoint>)
      requires Valid()
      ensures forall i | 0 <= i < |list| ::
        Stored(list[i]) && list[i] in repr && !list[i].freed && list[i].file == file
        && Has(contents, file, list[i].line) && list[i].Value() == contents[file][list[i].line]
      ensures forall i, j | 0 <= i < j < |list| :: list[i].line < list[j].line
      ensures file in contents ==> forall l | l in contents[file] :: exists i :: 0 <= i < |list| && list[i].line == l
      ensures file !in contents ==> list == []
    {
      list := [];
      if file in files {
        var lines := KeysInOrder(files[file].Keys);
        assert BucketHolds(files[file], contents[file], repr) && TreeKeyed(contents[file], file);
        var bucket := files[file];
        assert forall i | 0 <= i < |lines| :: lines[i] in lines && lines[i] in bucket;
        list := seq(|lines|, i requires 0 <= i < |lines| => bucket[lines[i]]);
        assert forall i | 0 <= i < |lines| :: list[i].line == lines[i];
      }
    }

    /**
     breaks_get_all: the structures of all files, file after file in the arbitrary order
     of the hash table.
     */
    method GetAll() returns (list: seq<Breakpoint>)
      requires Valid()
      ensures forall i | 0 <= i < |list| :: Stored(list[i]) && list[i] in repr
      ensures forall i | 0 <= i < |list| ::
        Has(contents, list[i].file, list[i].line) && list[i].Value() == contents[list[i].file][list[i].line]
      ensures forall f, l | Has(contents, f, l) :: Listed(list, f, l)
      ensures forall i, j | 0 <= i < j < |list| :: !(list[i].file == list[j].file && list[i].line == list[j].line)
    {
      list := [];
      var rest := files.Keys;
      while rest != {}
        invariant rest <= files.Keys
        invariant forall i | 0 <= i < |list| :: Stored(list[i]) && list[i] in repr && list[i].file !in rest
        invariant forall i | 0 <= i < |list| ::
          Has(contents, list[i].file, list[i].line) && list[i].Value() == contents[list[i].file][list[i].line]
        invariant forall f, l | Has(contents, f, l) && f !in rest :: Listed(list, f, l)
        invariant forall i, j | 0 <= i < j < |list| :: !(list[i].file == list[j].file && list[i].line == list[j].line)
        decreases rest
      {
        var file :| file in rest;
        var breaks := GetForDocument(file);
        ghost var before := list;
        list := list + breaks;
        rest := rest - {file};
        forall f, l | Has(contents, f, l) && f !in rest
          ensures Listed(list, f, l)
        {
          assert f == file ==> Listed(breaks, f, l);
          ListedJoined(before, breaks, f, l);
        }
      }
    }

    lemma StoredAt(f: string, l: int)
      requires Valid() && f in files && l in files[f]
      ensures files[f][l] in repr && Stored(files[f][l]) && !files[f][l].freed
      ensures Has(contents, f, l) && files[f][l].Value() == contents[f][l]
      ensures files[f][l].file == f && files[f][l].line == l
    {
      assert BucketHolds(files[f], contents[f], repr) && TreeKeyed(contents[f], f);
    }

    /** A structure is stored once. */
    lemma NotInOtherFiles(bp: Breakpoint)
      requires Valid()
      ensures forall f, l | f in files && l in files[f] && files[f][l] == bp :: f == bp.file && l == bp.line
    {
      forall f, l | f in files && l in files[f] && files[f][l] == bp
        ensures f == bp.file && l == bp.line
      {
        StoredAt(f, l);
      }
    }

    /** Assigns to a field of a stored breakpoint. */
    method AssignEnabled(bp: Breakpoint, enabled: bool)
      requires Valid() && Stored(bp)
      modifies `contents, bp`enabled
      ensures Valid() && Stored(bp)
      ensures bp.Value() == old(bp.Value()).(enabled := enabled)
      ensures contents == Set(old(contents), bp.file, bp.line, bp.Value())
    {
      ghost var b := bp.Value().(enabled := enabled);
      hide Keyed;
      KeyedStores(contents, b);
      NotInOtherFiles(bp);
      bp.enabled := enabled;
      contents := Set(contents, bp.file, bp.line, b);
      forall f | f in files
        ensures BucketHolds(files[f], contents[f], repr)
      {
        assert old(BucketHolds(files[f], contents[f], repr));
      }
    }

    /** The condition is copied into its buffer. */
    method AssignCondition(bp: Breakpoint, condition: string)
      requires Valid() && Stored(bp)
      modifies `contents, bp`condition
      ensures Valid() && Stored(bp)
      ensures bp.Value() == old(bp.Value()).(condition := condition)
      ensures contents == Set(old(contents), bp.file, bp.line, bp.Value())
    {
      ghost var b := bp.Value().(condition := condition);
      hide Keyed;
      KeyedStores(contents, b);
      NotInOtherFiles(bp);
      bp.condition := condition;
      contents := Set(contents, bp.file, bp.line, b);
      forall f | f in files
        ensures BucketHolds(files[f], contents[f], repr)
      {
        assert old(BucketHolds(files[f], contents[f], repr));
      }
    }

    /** Assigns to a field of a stored breakpoint. */
    method AssignHits(bp: Breakpoint, hitscount: int)
      requires Valid() && Stored(bp)
      modifies `contents, bp`hitscount
      ensures Valid() && Stored(bp)
      ensures bp.Value() == old(bp.Value()).(hits := hitscount)
      ensures contents == Set(old(contents), bp.file, bp.line, bp.Value())
    {
      ghost var b := bp.Value().(hits := hitscount);
      hide Keyed;
      KeyedStores(contents, b);
      NotInOtherFiles(bp);
      bp.hitscount := hitscount;
      contents := Set(contents, bp.file, bp.line, b);
      forall f | f in files
        ensures BucketHolds(files[f], contents[f], repr)
      {
        assert old(BucketHolds(files[f], contents[f], repr));
      }
    }

    /** Records the tree iterator of a stored breakpoint. */
    method AssignIter(bp: Breakpoint, iter: Iter)
      requires Valid() && Stored(bp)
      modifies `contents, bp`iter
      ensures Valid() && Stored(bp)
      ensures bp.Value() == old(bp.Value()).(iter := iter)
      ensures contents == Set(old(contents), bp.file, bp.line, bp.Value())
    {
      ghost var b := bp.Value().(iter := iter);
      hide Keyed;
      KeyedStores(contents, b);
      NotInOtherFiles(bp);
      bp.iter := iter;
      contents := Set(contents, bp.file, bp.line, b);
      forall f | f in files
        ensures BucketHolds(files[f], contents[f], repr)
      {
        assert old(BucketHolds(files[f], contents[f], repr));
      }
    }

    /** g_tree_remove: the structure is freed. */
    method Delete(file: string, line: int)
      requires Valid() && Has(contents, file, line)
      modifies this, repr
      ensures Valid() && repr == old(repr)
      ensures contents == Del(old(contents), file, line)
      ensures old(files)[file][line].freed
      ensures forall o | o in repr && o != old(files)[file][line] :: o.freed == old(o.freed)
      ensures forall o | o in repr :: o.Value() == old(o.Value())
      ensures files == old(files)[file := old(files)[file] - {line}]
    {
      hide Keyed;
      StoredAt(file, line);
      KeyedStores(contents, contents[file][line]);
      NotInOtherFiles(files[file][line]);
      files[file][line].freed := true;
      files := files[file := files[file] - {line}];
      contents := Del(contents, file, line);
      forall f | f in files
        ensures BucketHolds(files[f], contents[f], repr)
      {
        assert old(BucketHolds(files[f], contents[f], repr));
      }
    }

    /** g_tree_insert for a line that is not in the tree. */
    method InsertNew(bp: Breakpoint)
      requires Valid() && !bp.freed && !Has(contents, bp.file, bp.line)
      modifies this
      ensures Valid() && Stored(bp)
      ensures repr == old(repr) + {bp}
      ensures contents == Put(old(contents), bp.Value())
      ensures forall o | o in old(repr) && old(Stored(o)) :: Stored(o)
    {
      hide Keyed, BucketHolds;
      KeyedStores(contents, bp.Value());
      var bucket: Bucket := if bp.file in files then files[bp.file] else map[];
      ghost var tree: LineTree := if bp.file in contents then contents[bp.file] else map[];
      EmptyBucket(repr);
      BucketInsert(bucket, tree, repr, bp);
      forall f | f in files
        ensures BucketHolds(files[f], contents[f], repr + {bp})
      {
        BucketInsert(files[f], contents[f], repr, bp);
      }
      files := files[bp.file := bucket[bp.line := bp]];
      contents := Put(contents, bp.Value());
      repr := repr + {bp};
    }

    /** g_tree_insert into the tree of the breakpoint's file; a replaced structure is freed. */
    method Insert(bp: Breakpoint)
      requires Valid() && bp !in repr && !bp.freed
      modifies this, repr
      ensures Valid() && Stored(bp)
      ensures repr == old(repr) + {bp}
      ensures contents == Put(old(contents), bp.Value())
      ensures Has(old(contents), bp.file, bp.line) ==> old(files)[bp.file][bp.line].freed
    {
      if bp.file in files && bp.line in files[bp.file] {
        ghost var s, replaced := contents, files[bp.file][bp.line];
        StoredAt(bp.file, bp.line);
        Delete(bp.file, bp.line);
        InsertNew(bp);
        PutAfterDel(s, bp.Value());
      } else {
        InsertNew(bp);
      }
    }

    /** g_tree_steal: the structure lives on outside the tree. */
    method Steal(bp: Breakpoint)
      requires Valid() && Stored(bp)
      modifies `files, `contents
      ensures Valid() && bp in repr && !bp.freed && !Has(contents, bp.file, bp.line)
      ensures contents == Del(old(contents), bp.file, bp.line)
      ensures forall f, l | f in files && l in files[f] :: files[f][l] != bp
      ensures forall o | o in repr && o != bp && old(Stored(o)) :: Stored(o)
    {
      hide Keyed, BucketHolds;
      StoredAt(bp.file, bp.line);
      KeyedStores(contents, contents[bp.file][bp.line]);
      NotInOtherFiles(bp);
      BucketDelete(files[bp.file], contents[bp.file], repr, bp.line);
      files := files[bp.file := files[bp.file] - {bp.line}];
      contents := Del(contents, bp.file, bp.line);
    }

    /** A structure that is in no tree gets another line. */
    method Renumber(bp: Breakpoint, to: int)
      requires Valid() && forall f, l | f in files && l in files[f] :: files[f][l] != bp
      modifies bp`line
      ensures Valid() && bp.Value() == old(bp.Value()).(line := to)
    {
      hide Keyed;
      bp.line := to;
      forall f | f in files
        ensures BucketHolds(files[f], contents[f], repr)
      {
        assert old(BucketHolds(files[f], contents[f], repr));
      }
    }

    /** Steals a structure from its line and inserts it on a free one. */
    method MoveToFree(bp: Breakpoint, to: int)
      requires Valid() && Stored(bp) && !Has(contents, bp.file, to)
      modifies this, bp`line
      ensures Valid() && Stored(bp) && repr == old(repr)
      ensures bp.Value() == old(bp.Value()).(line := to)
      ensures contents == Moved(old(contents), bp.file, old(bp.line), bp.Value())
      ensures forall o | o in repr && o != bp && old(Stored(o)) :: Stored(o)
    {
      hide Valid;
      ghost var s, from := contents, bp.line;
      StoredAt(bp.file, from);
      Steal(bp);
      Renumber(bp, to);
      InsertNew(bp);
      assert Put(Del(s, bp.file, from), bp.Value()) == Moved(s, bp.file, from, bp.Value());
    }

    /** breaks_move_to_line: a breakpoint that was on the target line is freed. */
    method MoveToLine(file: string, from: int, to: int) returns (ghost moved: Breakpoint?)
      requires Valid() && from != to
      modifies this, repr
      ensures Valid() && repr == old(repr)
      ensures moved == null <==> !Has(old(contents), file, from)
      ensures moved == null ==> contents == old(contents)
      ensures moved != null ==> old(files)[file][from] == moved && Stored(moved)
      ensures moved != null ==> moved.Value() == old(contents)[file][from].(line := to)
      ensures moved != null ==> contents == Moved(old(contents), file, from, moved.Value())
      ensures !Has(old(contents), file, to) ==>
        forall o | o in repr && o != moved :: o.Value() == old(o.Value()) && (old(Stored(o)) ==> Stored(o))
    {
      hide Keyed;
      moved := null;
      if file in files && from in files[file] {
        var bp := files[file][from];
        moved := bp;
        StoredAt(file, from);
        ghost var s: Store := contents;
        if to in files[file] {
          Delete(file, to);
          MovedAfterDel(s, file, from, s[file][from].(line := to));
        }
        MoveToFree(bp, to);
      }
    }

    /** Freed memory may change at any time; the store does not depend on it. */
    method Scribble(bp: Breakpoint)
      requires Valid() && bp.freed
      modifies bp
      ensures Valid() && bp.freed
    {
      forall f, l | f in files && l in files[f]
        ensures files[f][l] != bp
      {
        StoredAt(f, l);
      }
      bp.Scribble();
      forall f | f in files
        ensures BucketHolds(files[f], contents[f], repr)
      {
        assert old(BucketHolds(files[f], contents[f], repr));
      }
    }
  }
}
