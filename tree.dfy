/**
 * The directory tree `scanDirectory` walks, given as a value instead of
 * `readdirSync`/`statSync`, and the files the walk hands to `processFile`.
 */
module Tree {
  import opened Wrappers
  import opened Paths

  /**
   * One directory entry as `statSync` classifies it. A file's `content` is
   * None when `readFileSync` fails; `writable` is false when
   * `writeFileSync` would fail. `Other` is anything neither a directory nor
   * a regular file (a socket, a FIFO, a device).
   */
  datatype Entry =
    | Dir(name: string, children: seq<Entry>)
    | File(name: string, content: Option<string>, writable: bool)
    | Other(name: string)

  /** A file the walk reaches, with its full path. */
  datatype Candidate = Candidate(path: string, content: Option<string>, writable: bool)

  /**
   * The files `scanDirectory(dir)` passes to `processFile`, in order: an
   * entry whose joined path contains a skip token is dropped (a directory
   * with its whole subtree), a directory is descended into, and a file is
   * kept when its extension is allowed.
   */
  function Reached(dir: string, items: seq<Entry>, skip: seq<string>, allowed: seq<string>): seq<Candidate>
    decreases items
  {
    if items == [] then []
    else Reached(dir, items[..|items| - 1], skip, allowed) + Visit(dir, items[|items| - 1], skip, allowed)
  }

  /** What one entry of the listing of `dir` contributes to the walk. */
  function Visit(dir: string, e: Entry, skip: seq<string>, allowed: seq<string>): seq<Candidate>
    decreases e
  {
    var path := Join(dir, e.name);
    if Skipped(path, skip) then []
    else match e
      case Dir(_, children) => Reached(path, children, skip, allowed)
      case File(_, content, writable) =>
        if Extname(path) in allowed then [Candidate(path, content, writable)] else []
      case Other(_) => []
  }

  /** Every file in the tree below `dir`, in walk order, with no filtering. */
  function AllFiles(dir: string, items: seq<Entry>): seq<Candidate>
    decreases items
  {
    if items == [] then []
    else
      var before := AllFiles(dir, items[..|items| - 1]);
      var e := items[|items| - 1];
      var path := Join(dir, e.name);
      match e
      case Dir(_, children) => before + AllFiles(path, children)
      case File(_, content, writable) => before + [Candidate(path, content, writable)]
      case Other(_) => before
  }

  /** A file is processed when its own path has no skip token and its extension is allowed. */
  predicate Eligible(c: Candidate, skip: seq<string>, allowed: seq<string>) {
    !Skipped(c.path, skip) && Extname(c.path) in allowed
  }

  /** The eligible files of `cs`, in order. */
  function Keep(cs: seq<Candidate>, skip: seq<string>, allowed: seq<string>): seq<Candidate>
    decreases |cs|
  {
    if cs == [] then []
    else
      var rest := Keep(cs[..|cs| - 1], skip, allowed);
      if Eligible(cs[|cs| - 1], skip, allowed) then rest + [cs[|cs| - 1]] else rest
  }

  /** `Keep` keeps exactly the eligible files: nothing else, and none of them is lost. */
  lemma {:induction false} KeepMembers(cs: seq<Candidate>, skip: seq<string>, allowed: seq<string>)
    ensures forall c :: c in Keep(cs, skip, allowed) <==> c in cs && Eligible(c, skip, allowed)
    decreases |cs|
  {
    if cs != [] {
      var init, last := cs[..|cs| - 1], cs[|cs| - 1];
      KeepMembers(init, skip, allowed);
      assert cs == init + [last];
    }
  }

  lemma {:induction false} KeepAppend(a: seq<Candidate>, b: seq<Candidate>, skip: seq<string>, allowed: seq<string>)
    ensures Keep(a + b, skip, allowed) == Keep(a, skip, allowed) + Keep(b, skip, allowed)
    decreases |b|
  {
    if b == [] {
      assert a + b == a;
    } else {
      assert (a + b)[..|a + b| - 1] == a + b[..|b| - 1];
      KeepAppend(a, b[..|b| - 1], skip, allowed);
    }
  }

  /** Below a path that contains a skip token, no file is eligible. */
  lemma {:induction false} NothingBelowSkipped(dir: string, items: seq<Entry>, skip: seq<string>, allowed: seq<string>)
    requires Skipped(dir, skip)
    ensures Keep(AllFiles(dir, items), skip, allowed) == []
    decreases items
  {
    if items != [] {
      var init, e := items[..|items| - 1], items[|items| - 1];
      var path := Join(dir, e.name);
      NothingBelowSkipped(dir, init, skip, allowed);
      SkippedBelow(dir, e.name, skip);
      match e
      case Dir(_, children) =>
        NothingBelowSkipped(path, children, skip, allowed);
        KeepAppend(AllFiles(dir, init), AllFiles(path, children), skip, allowed);
      case File(_, content, writable) =>
        KeepAppend(AllFiles(dir, init), [Candidate(path, content, writable)], skip, allowed);
        assert Keep([Candidate(path, content, writable)], skip, allowed) == [];
      case Other(_) =>
    }
  }

  /**
   * Pruning changes nothing but the work done: the walk reaches exactly
   * the files of the whole tree whose own path passes both tests, in walk
   * order. A file under a pruned directory is never reached, because its
   * path contains the directory's path and so the same skip token.
   */
  lemma {:induction false} ReachedIsFiltered(dir: string, items: seq<Entry>, skip: seq<string>, allowed: seq<string>)
    ensures Reached(dir, items, skip, allowed) == Keep(AllFiles(dir, items), skip, allowed)
    decreases items
  {
    if items != [] {
      var init, e := items[..|items| - 1], items[|items| - 1];
      var path := Join(dir, e.name);
      ReachedIsFiltered(dir, init, skip, allowed);
      match e
      case Dir(_, children) =>
        KeepAppend(AllFiles(dir, init), AllFiles(path, children), skip, allowed);
        if Skipped(path, skip) {
          NothingBelowSkipped(path, children, skip, allowed);
        } else {
          ReachedIsFiltered(path, children, skip, allowed);
        }
      case File(_, content, writable) =>
        KeepAppend(AllFiles(dir, init), [Candidate(path, content, writable)], skip, allowed);
        assert [Candidate(path, content, writable)][..0] == [];
      case Other(_) =>
    }
  }

  /** Every reached file passes the skip test on its own path and has an allowed extension. */
  lemma ReachedEligible(dir: string, items: seq<Entry>, skip: seq<string>, allowed: seq<string>)
    ensures forall k :: 0 <= k < |Reached(dir, items, skip, allowed)| ==>
              Eligible(Reached(dir, items, skip, allowed)[k], skip, allowed)
  {
    ReachedIsFiltered(dir, items, skip, allowed);
    KeepMembers(AllFiles(dir, items), skip, allowed);
    forall k | 0 <= k < |Reached(dir, items, skip, allowed)|
      ensures Eligible(Reached(dir, items, skip, allowed)[k], skip, allowed)
    {
      assert Reached(dir, items, skip, allowed)[k] in Keep(AllFiles(dir, items), skip, allowed);
    }
  }

  /** No file below a directory whose path contains a skip token is ever reached. */
  lemma PrunedNeverReached(dir: string, items: seq<Entry>, skip: seq<string>, allowed: seq<string>, d: string, rest: string)
    requires Skipped(d, skip)
    ensures forall k :: 0 <= k < |Reached(dir, items, skip, allowed)| ==>
              Reached(dir, items, skip, allowed)[k].path != Join(d, rest)
  {
    ReachedEligible(dir, items, skip, allowed);
    SkippedBelow(d, rest, skip);
  }

  /**
   * A listing as `readdirSync` returns it: no name contains a separator,
   * no two entries share a name, and the same holds in every directory
   * below.
   */
  predicate WellNamed(items: seq<Entry>)
    decreases items
  {
    (forall i :: 0 <= i < |items| ==> NoSlash(items[i].name)) &&
    (forall i, j :: 0 <= i < j < |items| ==> items[i].name != items[j].name) &&
    (forall i :: 0 <= i < |items| && items[i].Dir? ==> WellNamed(items[i].children))
  }

  /** No two files share a path. */
  predicate DistinctPaths(cs: seq<Candidate>) {
    forall i, j :: 0 <= i < j < |cs| ==> cs[i].path != cs[j].path
  }

  /** Every file an entry contributes lies below the entry's own path. */
  lemma {:induction false} VisitUnder(dir: string, e: Entry, skip: seq<string>, allowed: seq<string>)
    ensures forall k :: 0 <= k < |Visit(dir, e, skip, allowed)| ==>
              Under(Visit(dir, e, skip, allowed)[k].path, Join(dir, e.name))
    decreases e
  {
    var path := Join(dir, e.name);
    if !Skipped(path, skip) && e.Dir? {
      var r := Reached(path, e.children, skip, allowed);
      ReachedUnder(path, e.children, skip, allowed);
      forall k | 0 <= k < |r| ensures Under(r[k].path, path) {
        var i :| 0 <= i < |e.children| && Under(r[k].path, Join(path, e.children[i].name));
        UnderJoin(path, e.children[i].name);
        UnderTrans(r[k].path, Join(path, e.children[i].name), path);
      }
    }
  }

  /** `p` lies below the path of some entry of the listing of `dir`. */
  ghost predicate BelowEntry(p: string, dir: string, items: seq<Entry>) {
    exists i :: 0 <= i < |items| && Under(p, Join(dir, items[i].name))
  }

  /** Every file the walk of `dir` reaches lies below the path of one entry of the listing. */
  lemma {:induction false} ReachedUnder(dir: string, items: seq<Entry>, skip: seq<string>, allowed: seq<string>)
    ensures forall k :: 0 <= k < |Reached(dir, items, skip, allowed)| ==>
              BelowEntry(Reached(dir, items, skip, allowed)[k].path, dir, items)
    decreases items
  {
    if items != [] {
      var init, e := items[..|items| - 1], items[|items| - 1];
      var a: seq<Candidate>, b: seq<Candidate> := Reached(dir, init, skip, allowed), Visit(dir, e, skip, allowed);
      ReachedUnder(dir, init, skip, allowed);
      VisitUnder(dir, e, skip, allowed);
      assert Reached(dir, items, skip, allowed) == a + b;
      forall k | 0 <= k < |a + b|
        ensures BelowEntry((a + b)[k].path, dir, items)
      {
        if k < |a| {
          var i :| 0 <= i < |init| && Under(a[k].path, Join(dir, init[i].name));
          assert items[i] == init[i];
          assert (a + b)[k] == a[k];
        } else {
          assert (a + b)[k] == b[k - |a|];
          assert Under((a + b)[k].path, Join(dir, items[|items| - 1].name));
        }
      }
    }
  }

  lemma DistinctAppend(a: seq<Candidate>, b: seq<Candidate>)
    requires DistinctPaths(a) && DistinctPaths(b)
    requires forall i, j :: 0 <= i < |a| && 0 <= j < |b| ==> a[i].path != b[j].path
    ensures DistinctPaths(a + b)
  {
    forall i, j | 0 <= i < j < |a + b| ensures (a + b)[i].path != (a + b)[j].path {
      if j < |a| {
        assert (a + b)[i] == a[i] && (a + b)[j] == a[j];
      } else if i < |a| {
        assert (a + b)[i] == a[i] && (a + b)[j] == b[j - |a|];
      } else {
        assert (a + b)[i] == b[i - |a|] && (a + b)[j] == b[j - |a|];
      }
    }
  }

  /**
   * In a well-named tree the walk reaches every file under one path only,
   * so `processFile` is called at most once per file.
   */
  lemma {:induction false} ReachedDistinct(dir: string, items: seq<Entry>, skip: seq<string>, allowed: seq<string>)
    requires WellNamed(items)
    ensures DistinctPaths(Reached(dir, items, skip, allowed))
    decreases items
  {
    if items != [] {
      var init, e := items[..|items| - 1], items[|items| - 1];
      assert forall i :: 0 <= i < |init| ==> init[i] == items[i];
      assert WellNamed(init);
      var a: seq<Candidate>, b: seq<Candidate> := Reached(dir, init, skip, allowed), Visit(dir, e, skip, allowed);
      ReachedDistinct(dir, init, skip, allowed);
      var path := Join(dir, e.name);
      if !Skipped(path, skip) && e.Dir? {
        ReachedDistinct(path, e.children, skip, allowed);
      }
      ReachedUnder(dir, init, skip, allowed);
      VisitUnder(dir, e, skip, allowed);
      forall i, j | 0 <= i < |a| && 0 <= j < |b| ensures a[i].path != b[j].path {
        var m :| 0 <= m < |init| && Under(a[i].path, Join(dir, init[m].name));
        assert init[m] == items[m];
        UnderApart(dir + "/", init[m].name, e.name, a[i].path, b[j].path);
      }
      DistinctAppend(a, b);
    }
  }
}
