/**
  `resolve` of tools/fetch_debian_python.py: the packages to fetch for a list of wanted ones, their
  dependencies followed recursively. The index is taken as parsed: per package the virtual names it
  provides and its dependencies, each a list of alternatives.
 */
module Resolve {
  import opened Wrappers

  datatype Package = Package(name: string, offers: seq<string>, depends: seq<seq<string>>)

  /** An index as `parse_index` returns it: one entry a name; a dependency has an alternative. */
  predicate IsIndex(index: seq<Package>)
  {
    && (forall i, j | 0 <= i < j < |index| :: index[i].name != index[j].name)
    && (forall p, d | p in index && d in p.depends :: |d| > 0)
  }

  /** `provider` is the first package of the index that provides `virtual`. */
  predicate FirstProvider(index: seq<Package>, virtual: string, provider: string)
  {
    exists i :: 0 <= i < |index| && index[i].name == provider && virtual in index[i].offers
      && forall j | 0 <= j < i :: virtual !in index[j].offers
  }

  /** What a name asks for: nothing more, a package, or something that does not exist. */
  datatype Need = Met | Fetch(package: string) | Missing

  datatype World = World(packages: map<string, Package>, providers: map<string, string>, skip: set<string>)
  {
    predicate Valid()
    {
      && (forall v | v in providers :: providers[v] in packages)
      && (forall n, d | n in packages && d in packages[n].depends :: |d| > 0)
    }

    function NeedOf(name: string): Need
    {
      if name in skip then Met
      else if name in packages then Fetch(name)
      else if name !in providers then Missing
      else if providers[name] in skip then Met
      else Fetch(providers[name])
    }

    predicate Known(name: string)
    {
      name in packages || name in providers || name in skip
    }

    /** The alternative taken: the first known one, or the first. */
    function Chosen(d: seq<string>): (name: string)
      requires |d| > 0
      ensures name in d && ((exists n :: n in d && Known(n)) ==> Known(name))
    {
      FirstKnown(d, d[0])
    }

    function FirstKnown(d: seq<string>, fallback: string): (name: string)
      ensures name in d || name == fallback
      ensures (exists n :: n in d && Known(n)) ==> Known(name) && name in d
    {
      if d == [] then fallback else if Known(d[0]) then d[0] else FirstKnown(d[1..], fallback)
    }

    lemma {:induction false} ChosenIsFirst(d: seq<string>)
      requires |d| > 0
      ensures
        || (exists i :: 0 <= i < |d| && Known(d[i]) && Chosen(d) == d[i] && forall j | 0 <= j < i :: !Known(d[j]))
        || (Chosen(d) == d[0] && forall j | 0 <= j < |d| :: !Known(d[j]))
    {
      FirstKnownIsFirst(d, d[0]);
    }

    /** What is known is exactly what does not ask for something missing. */
    lemma KnownMeans(name: string)
      ensures Known(name) <==> name in packages || name in providers || name in skip
      ensures Known(name) <==> !NeedOf(name).Missing?
    {
    }

    lemma {:induction false} FirstKnownIsFirst(d: seq<string>, fallback: string)
      ensures
        || (exists i :: 0 <= i < |d| && Known(d[i]) && FirstKnown(d, fallback) == d[i]
              && forall j | 0 <= j < i :: !Known(d[j]))
        || (FirstKnown(d, fallback) == fallback && forall j | 0 <= j < |d| :: !Known(d[j]))
    {
      if d != [] && !Known(d[0]) {
        var rest := d[1..];
        FirstKnownIsFirst(rest, fallback);
        if i :|
             && 0 <= i < |rest| && Known(rest[i]) && FirstKnown(rest, fallback) == rest[i]
             && forall j | 0 <= j < i :: !Known(rest[j]) {
          assert Known(d[i + 1]) && forall j | 0 <= j < i + 1 :: j == 0 || d[j] == rest[j - 1];
        } else {
          assert forall j | 0 <= j < |d| :: j == 0 || d[j] == rest[j - 1];
        }
      }
    }

    /** Package q depends on what `need` says. */
    predicate Needs(q: string, need: Need)
      requires Valid()
    {
      q in packages && exists d :: d in packages[q].depends && NeedOf(Chosen(d)) == need
    }

    /** A chain of dependencies from what `name` asks for. */
    predicate Path(name: string, path: seq<string>)
      requires Valid()
    {
      && |path| > 0 && NeedOf(name) == Fetch(path[0])
      && forall i | 0 <= i < |path| - 1 :: Needs(path[i], Fetch(path[i + 1]))
    }

    ghost predicate Reaches(name: string, q: string)
      requires Valid()
    {
      exists path :: Path(name, path) && path[|path| - 1] == q
    }

    /** `name` asks, directly or through its dependencies, for something that does not exist. */
    ghost predicate Broken(name: string)
      requires Valid()
    {
      NeedOf(name) == Missing || exists q :: Reaches(name, q) && Needs(q, Missing)
    }

    /** What a name asks for is there. */
    predicate Settled(name: string, have: set<string>)
    {
      match NeedOf(name) case Met => true case Fetch(p) => p in have case Missing => false
    }

    predicate AllSettled(q: string, have: set<string>)
      requires Valid()
    {
      q in packages && forall d | d in packages[q].depends :: Settled(Chosen(d), have)
    }

    // ----- Discovery order -----

    /** The package that a name asks for, if it is not there yet. */
    function OpenNeed(name: string, have: seq<string>): Option<string>
    {
      match NeedOf(name) case Fetch(p) => if p in have then None else Some(p) case _ => None
    }

    /** The first package that these names ask for and that is not there yet. */
    function FirstOpen(names: seq<string>, have: seq<string>): Option<string>
    {
      if names == [] then None
      else
        var open := OpenNeed(names[0], have);
        if open.Some? then open else FirstOpen(names[1..], have)
    }

    /** The names that a package depends on, of each dependency the alternative taken. */
    function Depends(q: string): seq<string>
      requires Valid()
    {
      if q !in packages then []
      else
        var deps := packages[q].depends;
        seq(|deps|, i requires 0 <= i < |deps| => assert deps[i] in deps; Chosen(deps[i]))
    }

    /** What the latest of these packages that still lacks something lacks first. */
    function LatestOpen(found: seq<string>, have: seq<string>): Option<string>
      requires Valid()
    {
      if found == [] then None
      else
        var open := FirstOpen(Depends(found[|found| - 1]), have);
        if open.Some? then open else LatestOpen(found[..|found| - 1], have)
    }

    /** Each package but the first is what the latest one before it that lacked something lacked first. */
    predicate Follows(order: seq<string>, from: nat)
      requires Valid()
    {
      forall k | from < k < |order| :: LatestOpen(order[from..k], order[..k]) == Some(order[k])
    }

    /**
      Discovery order: each package is what the latest package before it that lacked something lacked
      first, or if none did, the first that a wanted name lacked.
     */
    predicate Discovers(wanted: seq<string>, order: seq<string>)
      requires Valid()
    {
      forall k | 0 <= k < |order| ::
        order[k] in packages
        && (if LatestOpen(order[..k], order[..k]).Some? then LatestOpen(order[..k], order[..k])
            else FirstOpen(wanted, order[..k])) == Some(order[k])
    }

    lemma {:induction false} LatestOfSum(a: seq<string>, b: seq<string>, have: seq<string>)
      requires Valid()
      ensures LatestOpen(a + b, have) == if LatestOpen(b, have).Some? then LatestOpen(b, have) else LatestOpen(a, have)
    {
      if b == [] {
        assert a + b == a;
      } else {
        assert (a + b)[..|a + b| - 1] == a + b[..|b| - 1];
        LatestOfSum(a, b[..|b| - 1], have);
      }
    }

    lemma {:induction false} FirstOpenAt(names: seq<string>, have: seq<string>, i: nat)
      requires i < |names| && OpenNeed(names[i], have).Some?
      requires forall j | 0 <= j < i :: OpenNeed(names[j], have).None?
      ensures FirstOpen(names, have) == OpenNeed(names[i], have)
    {
      if i > 0 {
        FirstOpenAt(names[1..], have, i - 1);
      }
    }

    lemma {:induction false} NoneOpen(names: seq<string>, have: seq<string>)
      requires forall n | n in names :: OpenNeed(n, have).None?
      ensures FirstOpen(names, have) == None
    {
      if names != [] {
        NoneOpen(names[1..], have);
      }
    }

    /** Packages with all that they need lack nothing. */
    lemma {:induction false} SettledClosed(found: seq<string>, have: seq<string>, all: set<string>)
      requires Valid() && (forall n :: n in all <==> n in have)
      requires forall q | q in found :: AllSettled(q, all)
      ensures LatestOpen(found, have) == None
    {
      if found != [] {
        var q := found[|found| - 1];
        assert AllSettled(q, all);
        forall n | n in Depends(q)
          ensures OpenNeed(n, have).None?
        {
          var i :| 0 <= i < |packages[q].depends| && n == Depends(q)[i];
          assert packages[q].depends[i] in packages[q].depends;
        }
        NoneOpen(Depends(q), have);
        SettledClosed(found[..|found| - 1], have, all);
      }
    }

    lemma FollowsFirst(order: seq<string>)
      requires Valid() && |order| > 0
      ensures Follows(order, |order| - 1)
    {
    }

    /** Names up to i lack nothing, and packages found later than `start` and `actual` neither. */
    predicate Progress(start: seq<string>, actual: string, i: nat, found: seq<string>)
      requires Valid()
    {
      && start + [actual] <= found && i <= |Depends(actual)|
      && (forall j | 0 <= j < i :: OpenNeed(Depends(actual)[j], found).None?)
      && LatestOpen(found[|start| + 1..], found) == None
    }

    /** What dependency i of a package adds continues the discovery. */
    lemma FollowsOn(start: seq<string>, actual: string, i: nat, found: seq<string>, order: seq<string>)
      requires Valid() && Progress(start, actual, i, found) && i < |Depends(actual)| && found <= order
      requires Follows(found, |start|) && Follows(order, |found|)
      requires |found| < |order| ==> OpenNeed(Depends(actual)[i], found) == Some(order[|found|])
      ensures Follows(order, |start|)
    {
      hide LatestOpen, FirstOpen, OpenNeed, Depends;
      forall k | |start| < k < |order|
        ensures LatestOpen(order[|start|..k], order[..k]) == Some(order[k])
      {
        if k < |found| {
          assert order[|start|..k] == found[|start|..k] && order[..k] == found[..k];
        } else if k == |found| {
          assert order[|start|..k] == [actual] + found[|start| + 1..] && order[..k] == found;
          NextIsDependency(start, actual, i, found, order[k]);
        } else {
          assert order[|start|..k] == order[|start|..|found|] + order[|found|..k];
          LatestOfSum(order[|start|..|found|], order[|found|..k], order[..k]);
        }
      }
    }

    lemma NextIsDependency(start: seq<string>, actual: string, i: nat, found: seq<string>, next: string)
      requires Valid() && Progress(start, actual, i, found) && i < |Depends(actual)|
      requires OpenNeed(Depends(actual)[i], found) == Some(next)
      ensures LatestOpen([actual] + found[|start| + 1..], found) == Some(next)
    {
      hide FirstOpen, OpenNeed, Depends;
      LatestOfSum([actual], found[|start| + 1..], found);
      FirstOpenAt(Depends(actual), found, i);
    }

    lemma ReachesSelf(name: string)
      requires Valid() && NeedOf(name).Fetch?
      ensures Reaches(name, NeedOf(name).package)
    {
      assert Path(name, [NeedOf(name).package]);
    }

    /** A dependency of what `name` asks for extends its paths. */
    lemma ReachesThrough(name: string, d: seq<string>, q: string)
      requires Valid() && NeedOf(name).Fetch? && NeedOf(name).package in packages
      requires d in packages[NeedOf(name).package].depends && Reaches(Chosen(d), q)
      ensures Reaches(name, q)
    {
      var p := NeedOf(name).package;
      var tail :| Path(Chosen(d), tail) && tail[|tail| - 1] == q;
      var path := [p] + tail;
      forall i | 0 <= i < |path| - 1
        ensures Needs(path[i], Fetch(path[i + 1]))
      {
        if i > 0 {
          assert Needs(tail[i - 1], Fetch(tail[i]));
        }
      }
      assert Path(name, path);
    }

    lemma BrokenThrough(name: string, d: seq<string>)
      requires Valid() && NeedOf(name).Fetch? && NeedOf(name).package in packages
      requires d in packages[NeedOf(name).package].depends && Broken(Chosen(d))
      ensures Broken(name)
    {
      if NeedOf(Chosen(d)) == Missing {
        ReachesSelf(name);
        assert Needs(NeedOf(name).package, Missing);
      } else {
        var q :| Reaches(Chosen(d), q) && Needs(q, Missing);
        ReachesThrough(name, d, q);
      }
    }

    /** In a closed set that settles `name`, everything `name` reaches is present. */
    lemma {:induction false} ClosedHolds(name: string, have: set<string>, path: seq<string>)
      requires Valid() && Settled(name, have) && (forall q | q in have :: AllSettled(q, have))
      requires Path(name, path)
      ensures path[|path| - 1] in have
      decreases |path|
    {
      if |path| > 1 {
        var p := path[0];
        assert Needs(p, Fetch(path[1]));
        var d :| d in packages[p].depends && NeedOf(Chosen(d)) == Fetch(path[1]);
        assert AllSettled(p, have);
        forall i | 0 <= i < |path[1..]| - 1
          ensures Needs(path[1..][i], Fetch(path[1..][i + 1]))
        {
          assert Needs(path[i + 1], Fetch(path[i + 2]));
        }
        ClosedHolds(Chosen(d), have, path[1..]);
      }
    }

    lemma ClosedNotBroken(name: string, have: set<string>)
      requires Valid() && Settled(name, have) && (forall q | q in have :: AllSettled(q, have))
      ensures !Broken(name)
      ensures forall q | Reaches(name, q) :: q in have
    {
      forall q | Reaches(name, q)
        ensures q in have && !Needs(q, Missing)
      {
        var path :| Path(name, path) && path[|path| - 1] == q;
        ClosedHolds(name, have, path);
        assert AllSettled(q, have);
      }
    }
  }

  class Resolver {
    const world: World
    var order: seq<string>
    var seen: set<string>

    constructor (world: World)
      requires world.Valid()
      ensures this.world == world && order == [] && seen == {} && Valid()
    {
      this.world, order, seen := world, [], {};
    }

    ghost predicate Valid()
      reads this
    {
      && world.Valid()
      && (forall i, j | 0 <= i < j < |order| :: order[i] != order[j])
      && (forall n :: n in order <==> n in seen)
      && (forall n | n in seen :: n in world.packages && n !in world.skip)
    }

    /**
      The nested `add`. It ends on any graph, cyclic ones too, because the packages not yet seen
      shrink. False is the SystemExit of a name without package or provider.
     */
    method Add(name: string) returns (ok: bool)
      requires Valid()
      modifies `order, `seen
      decreases world.packages.Keys - seen
      ensures Valid() && old(order) <= order && old(seen) <= seen
      ensures ok ==> world.Settled(name, seen)
      ensures ok ==> forall q | q in seen && q !in old(seen) :: world.AllSettled(q, seen)
      ensures forall q | q in seen && q !in old(seen) :: world.Reaches(name, q)
      ensures !ok ==> world.Broken(name)
      ensures ok ==> world.Follows(order, |old(order)|)
      ensures ok && |old(order)| < |order| ==> world.NeedOf(name) == Fetch(order[|old(order)|])
    {
      if name in world.skip || name in seen {
        return true;
      }
      var actual := name;
      if name !in world.packages {
        if name !in world.providers {
          return false;
        }
        actual := world.providers[name];
        if actual in world.skip || actual in seen {
          return true;
        }
      }
      ok := Expand(name, actual);
    }

    lemma Continues(start: seq<string>, had: set<string>, actual: string, i: nat, found: seq<string>,
                    before: set<string>)
      requires Valid() && actual in world.packages && i < |world.packages[actual].depends|
      requires (forall n :: n in found <==> n in before) && (forall n :: n in start <==> n in had)
      requires start + [actual] <= found <= order
      requires world.Follows(found, |start|) && world.Follows(order, |found|)
      requires world.packages[actual].depends[i] in world.packages[actual].depends
      requires forall j | 0 <= j < i ::
        && world.packages[actual].depends[j] in world.packages[actual].depends
        && world.Settled(world.Chosen(world.packages[actual].depends[j]), before)
      requires forall q | q in before && q !in had && q != actual :: world.AllSettled(q, before)
      requires |found| < |order| ==>
        world.NeedOf(world.Chosen(world.packages[actual].depends[i])) == Fetch(order[|found|])
      ensures world.Follows(order, |start|)
    {
      hide World.Follows, World.LatestOpen, World.AllSettled, World.Chosen;
      forall q | q in found[|start| + 1..]
        ensures world.AllSettled(q, before)
      {
        LaterOnes(start, had, actual, found, q);
      }
      world.SettledClosed(found[|start| + 1..], found, before);
      assert |found| < |order| ==> order[|found|] !in found;
      world.FollowsOn(start, actual, i, found, order);
    }

    lemma LaterOnes(start: seq<string>, had: set<string>, actual: string, found: seq<string>, q: string)
      requires Valid() && start + [actual] <= found <= order && q in found[|start| + 1..]
      requires forall n :: n in start <==> n in had
      ensures q in found && q !in had && q != actual
    {
      var later := found[|start| + 1..];
      var j :| 0 <= j < |later| && later[j] == q;
      assert q == order[|start| + 1 + j] && order[|start|] == actual;
      assert forall k | 0 <= k < |start| :: order[k] == start[k];
    }

    /** What wanted name i adds continues the discovery. */
    lemma DiscoversOn(wanted: seq<string>, i: nat, found: seq<string>, before: set<string>)
      requires Valid() && i < |wanted| && found <= order && (forall n :: n in found <==> n in before)
      requires world.Discovers(wanted, found) && world.Follows(order, |found|)
      requires forall j | 0 <= j < i :: world.Settled(wanted[j], before)
      requires forall q | q in before :: world.AllSettled(q, before)
      requires |found| < |order| ==> world.NeedOf(wanted[i]) == Fetch(order[|found|])
      ensures world.Discovers(wanted, order)
    {
      forall k | 0 <= k < |order|
        ensures order[k] in world.packages
        ensures (if world.LatestOpen(order[..k], order[..k]).Some? then world.LatestOpen(order[..k], order[..k])
                 else world.FirstOpen(wanted, order[..k])) == Some(order[k])
      {
        assert order[k] in order;
        if k < |found| {
          assert order[..k] == found[..k] && order[k] == found[k];
        } else if k == |found| {
          assert order[..k] == found;
          world.SettledClosed(found, found, before);
          assert order[k] !in found;
          world.FirstOpenAt(wanted, found, i);
        } else {
          assert order[..k] == found + order[|found|..k];
          world.LatestOfSum(found, order[|found|..k], order[..k]);
        }
      }
    }

    /** The end of `add`: enter a package, then its dependencies in order. */
    method Expand(name: string, actual: string) returns (ok: bool)
      requires Valid() && world.NeedOf(name) == Fetch(actual) && actual in world.packages && actual !in seen
        && actual !in world.skip
      modifies `order, `seen
      decreases world.packages.Keys - seen, 0
      ensures Valid() && old(order) <= order && old(seen) <= seen
      ensures ok ==> world.Settled(name, seen)
      ensures ok ==> forall q | q in seen && q !in old(seen) :: world.AllSettled(q, seen)
      ensures forall q | q in seen && q !in old(seen) :: world.Reaches(name, q)
      ensures !ok ==> world.Broken(name)
      ensures ok ==> world.Follows(order, |old(order)|)
      ensures |old(order)| < |order| && order[|old(order)|] == actual
    {
      hide World.Reaches, World.Broken, World.Needs, World.Path, World.Chosen, World.Known, World.Follows;
      seen := seen + {actual};
      order := order + [actual];
      world.ReachesSelf(name);
      var deps := world.packages[actual].depends;
      world.FollowsFirst(order);
      for i := 0 to |deps|
        invariant Valid() && old(order) <= order && old(seen) + {actual} <= seen
        invariant forall j | 0 <= j < i :: world.Settled(world.Chosen(deps[j]), seen)
        invariant forall q | q in seen && q !in old(seen) && q != actual :: world.AllSettled(q, seen)
        invariant forall q | q in seen && q !in old(seen) :: world.Reaches(name, q)
        invariant world.Follows(order, |old(order)|) && old(order) + [actual] <= order
      {
        assert deps[i] in deps;
        ghost var before, found := seen, order;
        ok := Add(world.Chosen(deps[i]));
        if ok {
          Continues(old(order), old(seen), actual, i, found, before);
        }
        forall q | q in seen && q !in before
          ensures world.Reaches(name, q)
        {
          world.ReachesThrough(name, deps[i], q);
        }
        if !ok {
          world.BrokenThrough(name, deps[i]);
          return false;
        }
      }
      return true;
    }
  }

  /** Every virtual name, by the first package that provides it. */
  function ProvidersOf(index: seq<Package>): map<string, string>
  {
    if index == [] then map[]
    else
      var front, last := ProvidersOf(index[..|index| - 1]), index[|index| - 1];
      front + map v | v in last.offers && v !in front :: last.name
  }

  function PackagesOf(index: seq<Package>): map<string, Package>
  {
    if index == [] then map[]
    else PackagesOf(index[..|index| - 1])[index[|index| - 1].name := index[|index| - 1]]
  }

  function WorldOf(index: seq<Package>, skip: set<string>): World
  {
    World(PackagesOf(index), ProvidersOf(index), skip)
  }

  lemma {:induction false} PackageFacts(index: seq<Package>)
    requires IsIndex(index)
    ensures forall n :: n in PackagesOf(index) <==> exists p :: p in index && p.name == n
    ensures forall p | p in index :: PackagesOf(index)[p.name] == p
    ensures forall n | n in PackagesOf(index) :: PackagesOf(index)[n] in index
  {
    if index != [] {
      var n := |index| - 1;
      var front, last := index[..n], index[n];
      assert forall p :: p in index <==> p in front || p == last;
      PackageFacts(front);
      forall p | p in index
        ensures PackagesOf(index)[p.name] == p
      {
        if p != last {
          var i :| 0 <= i < n && front[i] == p;
          assert index[i].name != index[n].name;
        }
      }
    }
  }

  lemma {:induction false} ProviderFacts(index: seq<Package>)
    ensures forall v :: v in ProvidersOf(index) <==> exists p :: p in index && v in p.offers
    ensures forall v | v in ProvidersOf(index) :: FirstProvider(index, v, ProvidersOf(index)[v])
  {
    if index != [] {
      var n := |index| - 1;
      var front, last := index[..n], index[n];
      assert forall p :: p in index <==> p in front || p == last;
      ProviderFacts(front);
      forall v | v in ProvidersOf(index)
        ensures FirstProvider(index, v, ProvidersOf(index)[v])
      {
        if v in ProvidersOf(front) {
          EarlierProvider(index, v, ProvidersOf(front)[v]);
        } else {
          assert forall j | 0 <= j < n :: index[j] in front;
        }
      }
    }
  }

  lemma EarlierProvider(index: seq<Package>, v: string, name: string)
    requires index != [] && FirstProvider(index[..|index| - 1], v, name)
    ensures FirstProvider(index, v, name)
  {
    var front := index[..|index| - 1];
    var m :| 0 <= m < |front| && front[m].name == name && v in front[m].offers
      && forall j | 0 <= j < m :: v !in front[j].offers;
    assert index[m] == front[m] && forall j | 0 <= j < m :: index[j] == front[j];
  }

  /**
    What a name asks for: nothing if it is skipped, itself if it is a package, else the first package
    that provides it, unless that is skipped; if there is none it is missing.
   */
  lemma NeedMeans(index: seq<Package>, skip: set<string>, name: string)
    requires IsIndex(index)
    ensures var need := WorldOf(index, skip).NeedOf(name);
      && (name in skip ==> need == Met)
      && (name !in skip && (exists p :: p in index && p.name == name) ==> need == Fetch(name))
      && (name !in skip && !(exists p :: p in index && p.name == name) ==>
            && (need == Missing <==> forall p | p in index :: name !in p.offers)
            && (forall q | FirstProvider(index, name, q) :: need == if q in skip then Met else Fetch(q)))
  {
    PackageFacts(index);
    ProviderFacts(index);
    forall q | FirstProvider(index, name, q)
      ensures name in ProvidersOf(index) && ProvidersOf(index)[name] == q
    {
      OneProvider(index, name, q);
    }
  }

  lemma OneProvider(index: seq<Package>, name: string, q: string)
    requires FirstProvider(index, name, q)
    ensures name in ProvidersOf(index) && ProvidersOf(index)[name] == q
  {
    ProviderFacts(index);
    var i :| 0 <= i < |index| && index[i].name == q && name in index[i].offers
      && forall j | 0 <= j < i :: name !in index[j].offers;
    assert index[i] in index;
    var k :| 0 <= k < |index| && index[k].name == ProvidersOf(index)[name] && name in index[k].offers
      && forall j | 0 <= j < k :: name !in index[j].offers;
    assert i == k;
  }

  lemma WorldValid(index: seq<Package>, skip: set<string>)
    requires IsIndex(index)
    ensures WorldOf(index, skip).Valid()
  {
    PackageFacts(index);
    ProviderFacts(index);
    var w := WorldOf(index, skip);
    forall v | v in w.providers
      ensures w.providers[v] in w.packages
    {
      assert FirstProvider(index, v, w.providers[v]);
    }
  }

  /** The inner loop that fills `provides`: `setdefault` for each name that a package offers. */
  method AddOffers(before: map<string, string>, offers: seq<string>, name: string)
    returns (providers: map<string, string>)
    ensures providers == before + map v | v in offers && v !in before :: name
  {
    providers := before;
    for k := 0 to |offers|
      invariant forall v :: v in providers <==> v in before || v in offers[..k]
      invariant forall v | v in before :: providers[v] == before[v]
      invariant forall v | v in providers && v !in before :: providers[v] == name
    {
      if offers[k] !in providers {
        providers := providers[offers[k] := name];
      }
    }
  }

  method Providers(index: seq<Package>) returns (providers: map<string, string>)
    ensures providers == ProvidersOf(index)
  {
    providers := map[];
    for i := 0 to |index|
      invariant providers == ProvidersOf(index[..i])
    {
      assert index[..i + 1][..i] == index[..i];
      providers := AddOffers(providers, index[i].offers, index[i].name);
    }
    assert index[..|index|] == index;
  }

  method Packages(index: seq<Package>) returns (packages: map<string, Package>)
    ensures packages == PackagesOf(index)
  {
    packages := map[];
    for i := 0 to |index|
      invariant packages == PackagesOf(index[..i])
    {
      assert index[..i + 1][..i] == index[..i];
      packages := packages[index[i].name := index[i]];
    }
    assert index[..|index|] == index;
  }

  /**
    With a result: exactly the packages that the wanted names reach, each once, none of them in
    `skip`, and all that they need settled. Without: some wanted name needs what does not exist.
   */
  method Resolve(index: seq<Package>, wanted: seq<string>, skip: set<string>) returns (r: Option<seq<string>>)
    requires IsIndex(index)
    ensures WorldOf(index, skip).Valid()
    ensures var w := WorldOf(index, skip);
      && (r.None? <==> exists n :: n in wanted && w.Broken(n))
      && (r.Some? ==>
            && (forall i, j | 0 <= i < j < |r.value| :: r.value[i] != r.value[j])
            && (forall q :: q in r.value <==> exists n :: n in wanted && w.Reaches(n, q))
            && (forall q | q in r.value :: q in w.packages && q !in skip)
            && (forall n | n in wanted :: w.Settled(n, set q | q in r.value))
            && (forall q | q in r.value :: w.AllSettled(q, set p | p in r.value))
            && w.Discovers(wanted, r.value))
  {
    WorldValid(index, skip);
    var packages := Packages(index);
    var providers := Providers(index);
    var world := World(packages, providers, skip);
    var resolver := new Resolver(world);
    for i := 0 to |wanted|
      invariant resolver.world == world && resolver.Valid()
      invariant forall j | 0 <= j < i :: world.Settled(wanted[j], resolver.seen)
      invariant forall q | q in resolver.seen :: world.AllSettled(q, resolver.seen)
      invariant forall q | q in resolver.seen :: exists n :: n in wanted && world.Reaches(n, q)
      invariant world.Discovers(wanted, resolver.order)
    {
      ghost var found, before := resolver.order, resolver.seen;
      var ok := resolver.Add(wanted[i]);
      if ok {
        resolver.DiscoversOn(wanted, i, found, before);
      }
      assert wanted[i] in wanted;
      if !ok {
        return None;
      }
    }
    var have := resolver.seen;
    forall n | n in wanted
      ensures !world.Broken(n) && world.Settled(n, have) && forall q | world.Reaches(n, q) :: q in have
    {
      world.ClosedNotBroken(n, have);
    }
    r := Some(resolver.order);
    assert (set q | q in r.value) == have;
  }
}
