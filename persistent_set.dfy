/**
 * The persistent deduplication set: an in-memory set of strings whose every
 * mutation rewrites the backing file with the whole set, as a JSON array.
 */
module PersistentSets {
  import opened Wrappers

  /** What the backing file holds, abstracted from its JSON text. */
  datatype FileState =
    | Missing                    // nothing exists at the path
    | Unparseable                // text that is not valid JSON
    | Stored(items: seq<string>) // a JSON array of strings

  /** The error `remove` raises for an absent item (Python's `KeyError`). */
  datatype StoreError = KeyError(key: string)

  /** A sequence that lists no element twice. */
  predicate NoDup(xs: seq<string>) {
    forall i, j | 0 <= i < j < |xs| :: xs[i] != xs[j]
  }

  /** The elements of a sequence, as a set (Python's `set(xs)`). */
  function Elems(xs: seq<string>): set<string> {
    set x | x in xs
  }

  /** All items of all the iterables given to `update(*args)`. */
  function AllItems(args: seq<seq<string>>): set<string> {
    set xs, x | xs in args && x in xs :: x
  }

  /** How many times `x` occurs in `xs`. */
  function Occurrences(xs: seq<string>, x: string): nat {
    multiset(xs)[x]
  }

  /** A duplicate-free sequence has as many distinct elements as positions. */
  lemma {:induction false} NoDupSize(xs: seq<string>)
    requires NoDup(xs)
    ensures |Elems(xs)| == |xs|
  {
    if xs != [] {
      var tail := xs[1..];
      assert NoDup(tail) by {
        forall i, j | 0 <= i < j < |tail| ensures tail[i] != tail[j] {
          assert tail[i] == xs[i + 1] && tail[j] == xs[j + 1];
        }
      }
      NoDupSize(tail);
      assert Elems(xs) == {xs[0]} + Elems(tail);
      forall k | 0 <= k < |tail| ensures tail[k] != xs[0] {
        assert tail[k] == xs[k + 1];
      }
    }
  }

  /** In a duplicate-free sequence each element occurs exactly once. */
  lemma {:induction false} NoDupOccursOnce(xs: seq<string>, x: string)
    requires NoDup(xs) && x in xs
    ensures Occurrences(xs, x) == 1
  {
    if xs[0] == x {
      assert xs == [xs[0]] + xs[1..];
      forall k | 0 <= k < |xs[1..]| ensures xs[1..][k] != x {
        assert xs[1..][k] == xs[k + 1];
      }
      assert multiset(xs) == multiset{xs[0]} + multiset(xs[1..]);
    } else {
      assert xs == [xs[0]] + xs[1..];
      assert multiset(xs) == multiset{xs[0]} + multiset(xs[1..]);
      var tail := xs[1..];
      assert NoDup(tail) by {
        forall i, j | 0 <= i < j < |tail| ensures tail[i] != tail[j] {
          assert tail[i] == xs[i + 1] && tail[j] == xs[j + 1];
        }
      }
      NoDupOccursOnce(tail, x);
    }
  }

  /**
   * `list(s)`: the members of `s` in some iteration order, each exactly once.
   * The order is not specified, as Python leaves set iteration order open.
   */
  method Enumerate(s: set<string>) returns (xs: seq<string>)
    ensures NoDup(xs)
    ensures Elems(xs) == s
    ensures |xs| == |s|
  {
    xs := [];
    var rest := s;
    while rest != {}
      invariant NoDup(xs)
      invariant Elems(xs) !! rest
      invariant Elems(xs) + rest == s
      decreases |rest|
    {
      var x :| x in rest;
      xs := xs + [x];
      rest := rest - {x};
    }
    NoDupSize(xs);
  }

  /** The set `load` reads from a file that exists (`set(json.loads(data))`). */
  function Parsed(f: FileState): (r: set<string>)
    requires !f.Missing?
    ensures f.Unparseable? ==> r == {}
    ensures f.Stored? ==> forall x :: x in r <==> x in f.items
  {
    match f
    case Stored(xs) => Elems(xs)
    case Unparseable => {}
  }

  class PersistentSet {
    /** The in-memory set (`_set`). */
    var contents: set<string>
    /** The contents of the backing file at the store's path. */
    var disk: FileState

    /** The file lists exactly the in-memory set, each member once. */
    ghost predicate Persisted()
      reads this
    {
      disk.Stored? && NoDup(disk.items) && Elems(disk.items) == contents
    }

    /** `PersistentSet(path)`: starts empty and leaves the file alone. */
    constructor (disk: FileState)
      ensures contents == {} && this.disk == disk
    {
      contents := {};
      this.disk := disk;
    }

    /**
     * `load`: a missing file is first created holding `[]`; then the file is
     * parsed, and unparseable content reads as the empty set.
     */
    method Load()
      modifies this
      ensures old(disk).Missing? ==> disk == Stored([]) && contents == {}
      ensures old(disk).Unparseable? ==> disk == Unparseable && contents == {}
      ensures old(disk).Stored? ==>
        disk == old(disk) && forall x :: x in contents <==> x in disk.items
    {
      if disk.Missing? {
        disk := Stored([]);
      }
      contents := Parsed(disk);
    }

    /** `_save_to_file`: overwrite the file with a listing of the set. */
    method SaveToFile()
      modifies this`disk
      ensures Persisted()
    {
      var xs := Enumerate(contents);
      disk := Stored(xs);
    }

    /** `add`: insert the item (a no-op on the set if present), then save. */
    method Add(x: string)
      modifies this
      ensures contents == old(contents) + {x}
      ensures x in old(contents) ==> contents == old(contents)
      ensures Persisted()
    {
      contents := contents + {x};
      SaveToFile();
    }

    /** `remove`: delete the item, then save; an absent item raises and nothing changes. */
    method Remove(x: string) returns (r: Outcome<StoreError>)
      modifies this
      ensures r.Fail? <==> x !in old(contents)
      ensures r.Fail? ==> r.error == KeyError(x) && unchanged(this)
      ensures r.Pass? ==> contents == old(contents) - {x} && Persisted()
    {
      if x !in contents {
        return Fail(KeyError(x));
      }
      contents := contents - {x};
      SaveToFile();
      r := Pass;
    }

    /** `discard`: delete the item if present, then save; never fails. */
    method Discard(x: string)
      modifies this
      ensures contents == old(contents) - {x}
      ensures Persisted()
    {
      contents := contents - {x};
      SaveToFile();
    }

    /** `clear`: empty the set, then save. */
    method Clear()
      modifies this
      ensures contents == {}
      ensures disk == Stored([])
    {
      contents := {};
      SaveToFile();
      NoDupSize(disk.items);
    }

    /** `update(*args)`: insert every item of every given iterable, then save. */
    method Update(args: seq<seq<string>>)
      modifies this
      ensures forall x :: x in contents <==>
        x in old(contents) || exists i | 0 <= i < |args| :: x in args[i]
      ensures Persisted()
    {
      contents := contents + AllItems(args);
      SaveToFile();
    }

    /** `contains`: membership; reads only. */
    method Contains(x: string) returns (b: bool)
      ensures b <==> x in contents
    {
      b := x in contents;
    }

    /** `size`: the number of members; reads only. */
    method Size() returns (n: nat)
      ensures n == |contents|
    {
      n := |contents|;
    }

    /** `to_list`: every member exactly once; reads only. */
    method ToList() returns (xs: seq<string>)
      ensures Elems(xs) == contents
      ensures forall x | x in contents :: Occurrences(xs, x) == 1
      ensures |xs| == |contents|
    {
      xs := Enumerate(contents);
      forall x | x in contents ensures Occurrences(xs, x) == 1 {
        NoDupOccursOnce(xs, x);
      }
    }
  }

  /**
   * Two `add`s of the same item, then a fresh store loaded from the same
   * file: the item is found, the set grew by one at most, and the file lists
   * the item exactly once.
   */
  method AddTwiceThenReload(initial: FileState, x: string)
    returns (found: bool, sizeGrowth: int, copies: nat)
    ensures found
    ensures sizeGrowth == 0
    ensures copies == 1
  {
    var store := new PersistentSet(initial);
    store.Load();
    store.Add(x);
    var once := store.Size();
    store.Add(x);
    var twice := store.Size();
    sizeGrowth := twice - once;
    copies := Occurrences(store.disk.items, x);
    NoDupOccursOnce(store.disk.items, x);
    var reloaded := new PersistentSet(store.disk);
    reloaded.Load();
    found := reloaded.Contains(x);
  }

  /** Saving any set and loading it into a new store reproduces that set. */
  method SaveThenLoad(s: set<string>) returns (reloaded: set<string>)
    ensures reloaded == s
  {
    var store := new PersistentSet(Missing);
    store.Load();
    var items := Enumerate(s);
    store.Update([items]);
    forall x ensures x in store.contents <==> x in s {
      assert [items][0] == items;
    }
    var again := new PersistentSet(store.disk);
    again.Load();
    reloaded := again.contents;
  }
}
