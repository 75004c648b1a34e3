/** The selection part of generateQuestions: building one pool of question
    files per configured prefix, resolving each requested count, walking
    every shuffled pool greedily under the restrictions, and failing when
    too few questions could be chosen. */
module Selection {
  import opened Numbers
  import opened Results
  import opened Strings
  import opened Shuffling
  import opened Restrictions

  /** A question file: its folder (category), the prefix that selected it
      and its name with ".tex" removed; the triple [d, q, name]. */
  datatype QuestionRef = QuestionRef(folder: string, prefix: string, name: string)

  /** One name from os.listdir with what os.path.isfile says of it. */
  datatype DirEntry = DirEntry(fileName: string, isFile: bool)

  /** A configured count: "*" or a number. */
  datatype CountSpec = All | Count(n: int)

  datatype PrefixRequest = PrefixRequest(prefix: string, count: CountSpec)

  /** A folder of the exam configuration with its prefixes in order. */
  datatype FolderRequest = FolderRequest(folder: string, prefixes: seq<PrefixRequest>)

  /** One entry of Exam.allQuestions with its entry of Exam.quantities. */
  datatype PoolPlan = PoolPlan(pool: seq<QuestionRef>, quant: int)

  datatype SelectionError =
    | MissingFolder(folder: string)
    | TooFewStored(stored: nat, requested: int)
    | NoQuestions
    | Insufficient(needed: int, chosen: nat)

  /** The question file extension removed from pool names. */
  const QuestionExtension := ".tex"

  /** List-comprehension filter of a folder listing for one prefix. */
  predicate Matches(e: DirEntry, prefix: string)
  {
    e.isFile && StartsWith(e.fileName, prefix)
  }

  function RefOf(folder: string, prefix: string, e: DirEntry): QuestionRef
  {
    QuestionRef(folder, prefix, RemoveSuffix(e.fileName, QuestionExtension))
  }

  /** The number of regular files in the listing whose name starts with
      the prefix. */
  function MatchCount(entries: seq<DirEntry>, prefix: string): nat
  {
    if entries == [] then 0
    else (if Matches(entries[0], prefix) then 1 else 0) + MatchCount(entries[1..], prefix)
  }

  lemma {:induction false} MatchCountSnoc(entries: seq<DirEntry>, e: DirEntry, prefix: string)
    ensures MatchCount(entries + [e], prefix) == MatchCount(entries, prefix) + (if Matches(e, prefix) then 1 else 0)
    decreases |entries|
  {
    if entries != [] {
      assert (entries + [e])[1..] == entries[1..] + [e];
      MatchCountSnoc(entries[1..], e, prefix);
    } else {
      assert (entries + [e])[1..] == [];
    }
  }

  /** The pool for one prefix: the regular files of the folder whose name
      starts with the prefix, in listing order, each with ".tex" removed. */
  function Pool(folder: string, prefix: string, entries: seq<DirEntry>): (r: seq<QuestionRef>)
    ensures |r| == MatchCount(entries, prefix) && |r| <= |entries|
    ensures forall x :: x in r <==> exists e :: e in entries && Matches(e, prefix) && x == RefOf(folder, prefix, e)
  {
    if entries == [] then []
    else
      var init := Pool(folder, prefix, entries[..|entries| - 1]);
      var last := entries[|entries| - 1];
      assert forall e :: e in entries <==> e in entries[..|entries| - 1] || e == last;
      assert entries == entries[..|entries| - 1] + [last];
      MatchCountSnoc(entries[..|entries| - 1], last, prefix);
      init + (if Matches(last, prefix) then [RefOf(folder, prefix, last)] else [])
  }

  /** The pool keeps the listing order: the pool of two consecutive parts
      of a listing is the pool of the first followed by that of the second. */
  lemma {:induction false} PoolAppend(folder: string, prefix: string, a: seq<DirEntry>, b: seq<DirEntry>)
    ensures Pool(folder, prefix, a + b) == Pool(folder, prefix, a) + Pool(folder, prefix, b)
    decreases |b|
  {
    if b == [] {
      assert a + b == a;
    } else {
      var b' := b[..|b| - 1];
      assert (a + b)[..|a + b| - 1] == a + b';
      assert (a + b)[|a + b| - 1] == b[|b| - 1];
      PoolAppend(folder, prefix, a, b');
    }
  }

  /** The requested count fits a pool of the given size. */
  predicate Fits(count: CountSpec, stored: nat)
  {
    !(count.Count? && count.n > stored)
  }

  /** The quantity for one prefix: "*" takes the whole pool, a number is
      taken as it is unless it exceeds the pool, which is an error. */
  function Resolve(count: CountSpec, stored: nat): (r: Result<int, SelectionError>)
    ensures r.Ok? <==> Fits(count, stored)
    ensures r.Ok? ==> r.value <= stored
    ensures count.All? ==> r == Ok(stored)
    ensures r.Ok? && count.Count? ==> r.value == count.n
    ensures r.Err? ==> r.error == TooFewStored(stored, count.n)
  {
    match count
    case All => Ok(stored)
    case Count(c) => if c > stored then Err(TooFewStored(stored, c)) else Ok(c)
  }

  function PoolFor(catalog: map<string, seq<DirEntry>>, folder: string, p: PrefixRequest): seq<QuestionRef>
    requires folder in catalog
  {
    Pool(folder, p.prefix, catalog[folder])
  }

  /** Every folder exists and every count fits its pool. */
  predicate AllFit(catalog: map<string, seq<DirEntry>>, requests: seq<FolderRequest>)
  {
    forall i :: 0 <= i < |requests| ==> FolderFits(catalog, requests[i])
  }

  predicate FolderFits(catalog: map<string, seq<DirEntry>>, f: FolderRequest)
  {
    f.folder in catalog &&
    forall j :: 0 <= j < |f.prefixes| ==> Fits(f.prefixes[j].count, |PoolFor(catalog, f.folder, f.prefixes[j])|)
  }

  /** Each resolved plan takes no more than its pool holds. */
  predicate Bounded(plans: seq<PoolPlan>)
  {
    forall k :: 0 <= k < |plans| ==> plans[k].quant <= |plans[k].pool|
  }

  /** The quantity a count resolves to when it fits. */
  function Quantity(count: CountSpec, stored: nat): int
  {
    match count
    case All => stored
    case Count(n) => n
  }

  /** The plans the prefixes of one folder ask for: plan j is the pool of
      prefix j with its requested quantity. */
  function PrefixPlans(folder: string, entries: seq<DirEntry>, prefs: seq<PrefixRequest>): (r: seq<PoolPlan>)
    ensures |r| == |prefs|
  {
    seq(|prefs|, j requires 0 <= j < |prefs| =>
      PoolPlan(Pool(folder, prefs[j].prefix, entries), Quantity(prefs[j].count, |Pool(folder, prefs[j].prefix, entries)|)))
  }

  /** The plans the whole configuration asks for, folder by folder. */
  function FolderPlans(catalog: map<string, seq<DirEntry>>, requests: seq<FolderRequest>): seq<PoolPlan>
  {
    if requests == [] then []
    else
      (if requests[0].folder in catalog
       then PrefixPlans(requests[0].folder, catalog[requests[0].folder], requests[0].prefixes)
       else [])
      + FolderPlans(catalog, requests[1..])
  }

  /** The inner loop over the prefixes of one folder. */
  function PlanPrefixes(folder: string, entries: seq<DirEntry>, prefs: seq<PrefixRequest>, acc: seq<PoolPlan>)
    : (r: Result<seq<PoolPlan>, SelectionError>)
    requires Bounded(acc)
    ensures r.Ok? ==> |r.value| == |acc| + |prefs| && r.value[..|acc|] == acc && Bounded(r.value)
    decreases |prefs|
  {
    if prefs == [] then Ok(acc)
    else
      var pool := Pool(folder, prefs[0].prefix, entries);
      match Resolve(prefs[0].count, |pool|)
      case Err(e) => Err(e)
      case Ok(q) =>
        var acc' := acc + [PoolPlan(pool, q)];
        PlanPrefixes(folder, entries, prefs[1..], acc')
  }

  /** The outer loop over the folders: a missing folder stops the run,
      and so does the first count that exceeds its pool. */
  function PlanFolders(catalog: map<string, seq<DirEntry>>, requests: seq<FolderRequest>, acc: seq<PoolPlan>)
    : (r: Result<seq<PoolPlan>, SelectionError>)
    requires Bounded(acc)
    ensures r.Ok? ==> |acc| <= |r.value| && r.value[..|acc|] == acc && Bounded(r.value)
    decreases |requests|
  {
    if requests == [] then Ok(acc)
    else if requests[0].folder !in catalog then Err(MissingFolder(requests[0].folder))
    else
      match PlanPrefixes(requests[0].folder, catalog[requests[0].folder], requests[0].prefixes, acc)
      case Err(e) => Err(e)
      case Ok(acc') =>
        PlanFolders(catalog, requests[1..], acc')
  }

  /** Exam.allQuestions and Exam.quantities before any shuffle. */
  function MakePlan(catalog: map<string, seq<DirEntry>>, requests: seq<FolderRequest>): (r: Result<seq<PoolPlan>, SelectionError>)
    ensures r.Ok? ==> Bounded(r.value)
  {
    PlanFolders(catalog, requests, [])
  }

  /** On success the prefixes of a folder add, in order, plan j for
      prefix j: its pool and its resolved count. */
  lemma {:induction false} PlanPrefixesAsked(folder: string, entries: seq<DirEntry>, prefs: seq<PrefixRequest>, acc: seq<PoolPlan>)
    requires Bounded(acc)
    ensures var r := PlanPrefixes(folder, entries, prefs, acc);
      r.Ok? ==> r.value == acc + PrefixPlans(folder, entries, prefs)
    decreases |prefs|
  {
    if prefs == [] {
      assert acc + PrefixPlans(folder, entries, prefs) == acc;
    } else {
      var pool := Pool(folder, prefs[0].prefix, entries);
      if Resolve(prefs[0].count, |pool|).Ok? {
        var q := Resolve(prefs[0].count, |pool|).value;
        PlanPrefixesAsked(folder, entries, prefs[1..], acc + [PoolPlan(pool, q)]);
        assert PrefixPlans(folder, entries, prefs) == [PoolPlan(pool, q)] + PrefixPlans(folder, entries, prefs[1..]);
      }
    }
  }

  /** On success the folders add, in order, the plans of their prefixes. */
  lemma {:induction false} PlanFoldersAsked(catalog: map<string, seq<DirEntry>>, requests: seq<FolderRequest>, acc: seq<PoolPlan>)
    requires Bounded(acc)
    ensures var r := PlanFolders(catalog, requests, acc);
      r.Ok? ==> r.value == acc + FolderPlans(catalog, requests)
    decreases |requests|
  {
    if requests == [] {
      assert acc + FolderPlans(catalog, requests) == acc;
    } else if requests[0].folder in catalog {
      var f := requests[0];
      var p := PlanPrefixes(f.folder, catalog[f.folder], f.prefixes, acc);
      if p.Ok? {
        var here := PrefixPlans(f.folder, catalog[f.folder], f.prefixes);
        var rest := FolderPlans(catalog, requests[1..]);
        PlanPrefixesAsked(f.folder, catalog[f.folder], f.prefixes, acc);
        PlanFoldersAsked(catalog, requests[1..], p.value);
        assert FolderPlans(catalog, requests) == here + rest;
        assert p.value + rest == acc + (here + rest);
      }
    }
  }

  /** On success the plan is exactly the pools and quantities the
      configuration asks for, prefix by prefix and folder by folder. */
  lemma MakePlanAsked(catalog: map<string, seq<DirEntry>>, requests: seq<FolderRequest>)
    ensures MakePlan(catalog, requests).Ok? ==> MakePlan(catalog, requests).value == FolderPlans(catalog, requests)
  {
    PlanFoldersAsked(catalog, requests, []);
    assert [] + FolderPlans(catalog, requests) == FolderPlans(catalog, requests);
  }

  lemma {:induction false} PlanPrefixesOk(folder: string, entries: seq<DirEntry>, prefs: seq<PrefixRequest>, acc: seq<PoolPlan>)
    requires Bounded(acc)
    ensures PlanPrefixes(folder, entries, prefs, acc).Ok? <==>
      forall j :: 0 <= j < |prefs| ==> Fits(prefs[j].count, |Pool(folder, prefs[j].prefix, entries)|)
    decreases |prefs|
  {
    if prefs != [] {
      var pool := Pool(folder, prefs[0].prefix, entries);
      if Fits(prefs[0].count, |pool|) {
        var q := Resolve(prefs[0].count, |pool|).value;
        PlanPrefixesOk(folder, entries, prefs[1..], acc + [PoolPlan(pool, q)]);
        assert forall j :: 1 <= j < |prefs| ==> prefs[j] == prefs[1..][j - 1];
      }
    }
  }

  lemma {:induction false} PlanFoldersOk(catalog: map<string, seq<DirEntry>>, requests: seq<FolderRequest>, acc: seq<PoolPlan>)
    requires Bounded(acc)
    ensures PlanFolders(catalog, requests, acc).Ok? <==> AllFit(catalog, requests)
    decreases |requests|
  {
    if requests != [] {
      var f := requests[0];
      assert forall i :: 1 <= i < |requests| ==> requests[i] == requests[1..][i - 1];
      if f.folder in catalog {
        PlanPrefixesOk(f.folder, catalog[f.folder], f.prefixes, acc);
        var p := PlanPrefixes(f.folder, catalog[f.folder], f.prefixes, acc);
        if p.Ok? {
          PlanFoldersOk(catalog, requests[1..], p.value);
        }
      }
    }
  }

  /** Planning fails exactly when some folder is missing or some count
      exceeds its pool; a failure is one of those two errors. */
  lemma MakePlanOk(catalog: map<string, seq<DirEntry>>, requests: seq<FolderRequest>)
    ensures MakePlan(catalog, requests).Ok? <==> AllFit(catalog, requests)
  {
    PlanFoldersOk(catalog, requests, []);
  }

  /** Exam.countExamQuestions: the sum of the resolved quantities. */
  function Total(plans: seq<PoolPlan>): int
  {
    if plans == [] then 0 else Total(plans[..|plans| - 1]) + plans[|plans| - 1].quant
  }

  /** The names of the chosen questions. */
  function Names(sel: seq<QuestionRef>): (r: seq<string>)
    ensures |r| == |sel| && forall k :: 0 <= k < |sel| ==> r[k] == sel[k].name
  {
    seq(|sel|, k requires 0 <= k < |sel| => sel[k].name)
  }

  /** t is a subsequence of s: its elements appear in s in the same order. */
  predicate Subseq<T(==)>(t: seq<T>, s: seq<T>)
    decreases |s|
  {
    if t == [] then true
    else if s == [] then false
    else (t[0] == s[0] && Subseq(t[1..], s[1..])) || Subseq(t, s[1..])
  }

  /** The walk over one shuffled pool: a candidate is appended when it does
      not conflict with anything accepted so far, in this pool or earlier
      ones; after each append the walk stops once `taken` reaches `quant`.
      The walk adds, in pool order, at most max(quant - taken, 1) of the
      pool's questions. */
  function WalkPool(groups: seq<seq<string>>, acc: seq<QuestionRef>, pool: seq<QuestionRef>, quant: int, taken: int)
    : (r: seq<QuestionRef>)
    ensures |acc| <= |r| && r[..|acc|] == acc
    ensures Subseq(r[|acc|..], pool)
    ensures |r| - |acc| <= Max(quant - taken, 1) && |r| - |acc| <= |pool|
    decreases |pool|
  {
    if pool == [] then acc
    else
      var accept := !HasRestriction(groups, Names(acc), pool[0].name);
      var acc' := if accept then acc + [pool[0]] else acc;
      if accept && taken + 1 >= quant then
        assert acc'[|acc|..] == [pool[0]] && [pool[0]][1..] == [];
        acc'
      else
        var r := WalkPool(groups, acc', pool[1..], quant, if accept then taken + 1 else taken);
        assert r[..|acc|] == r[..|acc'|][..|acc|];
        assert accept ==> r[|acc|..][1..] == r[|acc'|..];
        assert !accept ==> (r[|acc|..] == [] || Subseq(r[|acc|..], pool[1..]));
        r
  }

  /** The loop over all pools, in configuration order. */
  function Select(groups: seq<seq<string>>, acc: seq<QuestionRef>, plans: seq<PoolPlan>): (r: seq<QuestionRef>)
    ensures |acc| <= |r| && r[..|acc|] == acc
    decreases |plans|
  {
    if plans == [] then acc
    else
      var acc' := WalkPool(groups, acc, plans[0].pool, plans[0].quant, 0);
      var r := Select(groups, acc', plans[1..]);
      assert r[..|acc|] == r[..|acc'|][..|acc|];
      r
  }

  /** The draws for the k-th shuffle, none when not supplied. */
  function DrawsAt(draws: seq<seq<nat>>, k: nat): seq<nat>
  {
    if k < |draws| then draws[k] else []
  }

  /** Shuffling every pool of Exam.allQuestions; quantities stay attached. */
  function ShufflePools(plans: seq<PoolPlan>, draws: seq<seq<nat>>): (r: seq<PoolPlan>)
    ensures |r| == |plans|
    ensures forall k :: 0 <= k < |plans| ==>
      r[k].quant == plans[k].quant && multiset(r[k].pool) == multiset(plans[k].pool)
  {
    seq(|plans|, k requires 0 <= k < |plans| => PoolPlan(Shuffle(plans[k].pool, DrawsAt(draws, k)), plans[k].quant))
  }

  /** What generateQuestions leaves behind: the shuffled pools with their
      quantities, countExamQuestions and the chosen questions. */
  datatype Generated = Generated(plans: seq<PoolPlan>, count: int, questions: seq<QuestionRef>)

  /** generateQuestions with its shuffles driven by the given draws. The
      score computation divides by countExamQuestions, so a total of zero
      fails there, before anything is chosen. */
  function GenerateQuestions(catalog: map<string, seq<DirEntry>>, requests: seq<FolderRequest>,
                             groups: seq<seq<string>>, poolDraws: seq<seq<nat>>, finalDraws: seq<nat>)
    : Result<Generated, SelectionError>
  {
    match MakePlan(catalog, requests)
    case Err(e) => Err(e)
    case Ok(plans) =>
      var total := Total(plans);
      if total == 0 then Err(NoQuestions)
      else
        var shuffled := ShufflePools(plans, poolDraws);
        var picked := Select(groups, [], shuffled);
        if |picked| < total then Err(Insufficient(total, |picked|))
        else Ok(Generated(shuffled, total, Shuffle(picked, finalDraws)))
  }
}

/** What the selection promises: the no-conflict invariant, the per-pool
    bounds and the exact error conditions. */
module SelectionProperties {
  import opened Numbers
  import opened Results
  import opened Restrictions
  import opened Selection

  /** No two chosen questions share a restriction group, and no question
      whose name is in a group is chosen twice. */
  predicate ConflictFree(groups: seq<seq<string>>, m: multiset<QuestionRef>)
  {
    forall i, x, y :: 0 <= i < |groups| && x in m && y in m && x.name in groups[i] && y.name in groups[i]
      ==> x == y && m[x] == 1
  }

  lemma NameChosen(sel: seq<QuestionRef>, y: QuestionRef)
    requires y in sel
    ensures y.name in Names(sel)
  {
    var k :| 0 <= k < |sel| && sel[k] == y;
    assert Names(sel)[k] == y.name;
  }

  /** Accepting a candidate that hasRestriction clears keeps the chosen
      questions conflict-free. */
  lemma AcceptKeepsConflictFree(groups: seq<seq<string>>, acc: seq<QuestionRef>, x: QuestionRef)
    requires ConflictFree(groups, multiset(acc))
    requires !HasRestriction(groups, Names(acc), x.name)
    ensures ConflictFree(groups, multiset(acc + [x]))
  {
    var m := multiset(acc);
    var m' := multiset(acc + [x]);
    assert m' == m + multiset{x};
    forall i, y, z | 0 <= i < |groups| && y in m' && z in m' && y.name in groups[i] && z.name in groups[i]
      ensures y == z && m'[y] == 1
    {
      var g := groups[i];
      if y != x || z != x {
        var w := if y != x then y else z;
        assert w in acc;
        NameChosen(acc, w);
        var j :| 0 <= j < |g| && g[j] == w.name;
        assert Meets(g, Names(acc));
        assert x.name in g ==> HasRestriction(groups, Names(acc), x.name);
        assert y != x && z != x;
        assert y in m && z in m;
      }
    }
  }

  lemma {:induction false} WalkPoolConflictFree(groups: seq<seq<string>>, acc: seq<QuestionRef>, pool: seq<QuestionRef>, quant: int, taken: int)
    requires ConflictFree(groups, multiset(acc))
    ensures ConflictFree(groups, multiset(WalkPool(groups, acc, pool, quant, taken)))
    decreases |pool|
  {
    if pool != [] {
      if HasRestriction(groups, Names(acc), pool[0].name) {
        WalkPoolConflictFree(groups, acc, pool[1..], quant, taken);
      } else {
        AcceptKeepsConflictFree(groups, acc, pool[0]);
        if taken + 1 < quant {
          WalkPoolConflictFree(groups, acc + [pool[0]], pool[1..], quant, taken + 1);
        }
      }
    }
  }

  /** Whatever the pools, the walk keeps the chosen questions conflict-free. */
  lemma {:induction false} SelectConflictFree(groups: seq<seq<string>>, acc: seq<QuestionRef>, plans: seq<PoolPlan>)
    requires ConflictFree(groups, multiset(acc))
    ensures ConflictFree(groups, multiset(Select(groups, acc, plans)))
    decreases |plans|
  {
    if plans != [] {
      WalkPoolConflictFree(groups, acc, plans[0].pool, plans[0].quant, 0);
      SelectConflictFree(groups, WalkPool(groups, acc, plans[0].pool, plans[0].quant, 0), plans[1..]);
    }
  }

  /** A conflict stays a conflict as the chosen list grows. */
  lemma RestrictionPersists(groups: seq<seq<string>>, a: seq<QuestionRef>, b: seq<QuestionRef>, x: string)
    requires |a| <= |b| && b[..|a|] == a && HasRestriction(groups, Names(a), x)
    ensures HasRestriction(groups, Names(b), x)
  {
    var i :| 0 <= i < |groups| && x in groups[i] && Meets(groups[i], Names(a));
    var j :| 0 <= j < |groups[i]| && groups[i][j] in Names(a);
    var m :| 0 <= m < |a| && Names(a)[m] == groups[i][j];
    assert b[m] == b[..|a|][m] == a[m];
    assert Names(b)[m] == groups[i][j];
    assert Meets(groups[i], Names(b));
  }

  /** The walk is greedy: when it takes fewer questions than it may, every
      question of the pool it left out conflicts with what was chosen. */
  lemma {:induction false} WalkPoolComplete(groups: seq<seq<string>>, acc: seq<QuestionRef>, pool: seq<QuestionRef>, quant: int, taken: int)
    ensures var r := WalkPool(groups, acc, pool, quant, taken);
      |r| - |acc| < Max(quant - taken, 1) ==>
        forall k :: 0 <= k < |pool| && pool[k] !in r ==> HasRestriction(groups, Names(r), pool[k].name)
    decreases |pool|
  {
    if pool != [] {
      var accept := !HasRestriction(groups, Names(acc), pool[0].name);
      var acc' := if accept then acc + [pool[0]] else acc;
      var r := WalkPool(groups, acc, pool, quant, taken);
      if !(accept && taken + 1 >= quant) {
        var taken' := if accept then taken + 1 else taken;
        WalkPoolComplete(groups, acc', pool[1..], quant, taken');
        assert r == WalkPool(groups, acc', pool[1..], quant, taken');
        assert accept ==> r[|acc|] == r[..|acc'|][|acc|] == pool[0];
        if |r| - |acc| < Max(quant - taken, 1) {
          forall k | 0 <= k < |pool| && pool[k] !in r ensures HasRestriction(groups, Names(r), pool[k].name) {
            if k == 0 {
              RestrictionPersists(groups, acc, r, pool[0].name);
            } else {
              assert pool[k] == pool[1..][k - 1];
            }
          }
        }
      }
    }
  }

  /** Without restriction groups every candidate is accepted: each pool
      gives its first max(quant - taken, 1) questions, or all it has. */
  lemma {:induction false} WalkPoolUnrestricted(acc: seq<QuestionRef>, pool: seq<QuestionRef>, quant: int, taken: int)
    ensures WalkPool([], acc, pool, quant, taken) == acc + pool[..Min(Max(quant - taken, 1), |pool|)]
    decreases |pool|
  {
    if pool != [] {
      assert !HasRestriction([], Names(acc), pool[0].name);
      if taken + 1 < quant {
        var n := Min(Max(quant - taken, 1), |pool|);
        var m := Min(Max(quant - (taken + 1), 1), |pool| - 1);
        assert n == m + 1;
        assert WalkPool([], acc, pool, quant, taken) == WalkPool([], acc + [pool[0]], pool[1..], quant, taken + 1);
        WalkPoolUnrestricted(acc + [pool[0]], pool[1..], quant, taken + 1);
        assert pool[..n] == [pool[0]] + pool[1..][..m];
        assert (acc + [pool[0]]) + pool[1..][..m] == acc + pool[..n];
      } else {
        assert pool[..Min(Max(quant - taken, 1), |pool|)] == [pool[0]];
      }
    }
  }

  /** A request for zero (or fewer) questions still takes one question
      when the pool has any and nothing conflicts. */
  lemma ZeroRequestTakesOne(acc: seq<QuestionRef>, pool: seq<QuestionRef>, quant: int)
    requires quant <= 0 && pool != []
    ensures WalkPool([], acc, pool, quant, 0) == acc + [pool[0]]
  {
    WalkPoolUnrestricted(acc, pool, quant, 0);
  }

  /** Everything generateQuestions promises on success: the chosen list is
      conflict-free, holds at least countExamQuestions questions, is a
      reordering of the greedy walk over the shuffled pools, and every
      shuffled pool is a reordering of the listed pool with a quantity it
      can meet. */
  lemma GenerateQuestionsSound(catalog: map<string, seq<DirEntry>>, requests: seq<FolderRequest>,
                               groups: seq<seq<string>>, poolDraws: seq<seq<nat>>, finalDraws: seq<nat>)
    ensures var r := GenerateQuestions(catalog, requests, groups, poolDraws, finalDraws);
      r.Ok? ==>
        && MakePlan(catalog, requests).Ok?
        && var plans := MakePlan(catalog, requests).value;
        && |r.value.plans| == |plans|
        && (forall k :: 0 <= k < |plans| ==>
              r.value.plans[k].quant == plans[k].quant && r.value.plans[k].quant <= |r.value.plans[k].pool|
              && multiset(r.value.plans[k].pool) == multiset(plans[k].pool))
        && r.value.count == Total(plans) && r.value.count != 0
        && |r.value.questions| >= r.value.count
        && multiset(r.value.questions) == multiset(Select(groups, [], r.value.plans))
        && ConflictFree(groups, multiset(r.value.questions))
  {
    var r := GenerateQuestions(catalog, requests, groups, poolDraws, finalDraws);
    if r.Ok? {
      var plans := MakePlan(catalog, requests).value;
      var shuffled := ShufflePools(plans, poolDraws);
      forall k | 0 <= k < |plans| ensures shuffled[k].quant <= |shuffled[k].pool| {
        assert |shuffled[k].pool| == |multiset(shuffled[k].pool)| == |multiset(plans[k].pool)| == |plans[k].pool|;
      }
      SelectConflictFree(groups, [], shuffled);
    }
  }

  /** The exact error conditions: a missing folder or a count above its
      pool is reported before anything is chosen, and exactly when some
      request is at fault; too few choosable questions are reported
      exactly when the walk falls short of countExamQuestions. */
  lemma GenerateQuestionsErrors(catalog: map<string, seq<DirEntry>>, requests: seq<FolderRequest>,
                                groups: seq<seq<string>>, poolDraws: seq<seq<nat>>, finalDraws: seq<nat>)
    ensures var r := GenerateQuestions(catalog, requests, groups, poolDraws, finalDraws);
      && ((r.Err? && (r.error.MissingFolder? || r.error.TooFewStored?)) <==> !AllFit(catalog, requests))
      && (r.Err? && r.error.Insufficient? <==>
            MakePlan(catalog, requests).Ok? && Total(MakePlan(catalog, requests).value) != 0
            && |Select(groups, [], ShufflePools(MakePlan(catalog, requests).value, poolDraws))|
               < Total(MakePlan(catalog, requests).value))
      && (r.Err? && r.error.Insufficient? ==>
            r.error.needed == Total(MakePlan(catalog, requests).value) && r.error.chosen < r.error.needed)
  {
    MakePlanOk(catalog, requests);
    PlanErrorKinds(catalog, requests, []);
  }

  lemma {:induction false} PlanErrorKinds(catalog: map<string, seq<DirEntry>>, requests: seq<FolderRequest>, acc: seq<PoolPlan>)
    requires Bounded(acc)
    ensures var r := PlanFolders(catalog, requests, acc);
      r.Err? ==> r.error.MissingFolder? || r.error.TooFewStored?
    decreases |requests|
  {
    if requests != [] && requests[0].folder in catalog {
      var f := requests[0];
      PrefixErrorKinds(f.folder, catalog[f.folder], f.prefixes, acc);
      var p := PlanPrefixes(f.folder, catalog[f.folder], f.prefixes, acc);
      if p.Ok? {
        PlanErrorKinds(catalog, requests[1..], p.value);
      }
    }
  }

  lemma {:induction false} PrefixErrorKinds(folder: string, entries: seq<DirEntry>, prefs: seq<PrefixRequest>, acc: seq<PoolPlan>)
    requires Bounded(acc)
    ensures var r := PlanPrefixes(folder, entries, prefs, acc);
      r.Err? ==> r.error.TooFewStored?
    decreases |prefs|
  {
    if prefs != [] {
      var pool := Pool(folder, prefs[0].prefix, entries);
      var q := Resolve(prefs[0].count, |pool|);
      if q.Ok? {
        PrefixErrorKinds(folder, entries, prefs[1..], acc + [PoolPlan(pool, q.value)]);
      }
    }
  }
}

/** The greedy walk as exam.py:504 writes it. The list handed to
    hasRestriction is Exam.questions, whose elements are the lists
    [d_type, q_type, question]; the test `q_restriction in q_list` at
    exam.py:413 compares a name (a str) with those lists, and a str never
    equals a list, so no conflict is ever reported. */
module SelectionAsWritten {
  import opened Restrictions
  import opened Selection
  import opened SelectionProperties

  /** The Python values the membership test compares. */
  datatype PyValue = PyStr(s: string) | PyList(items: seq<PyValue>)

  /** An entry of Exam.questions as Python holds it. */
  function AsPyValue(r: QuestionRef): PyValue
  {
    PyList([PyStr(r.folder), PyStr(r.prefix), PyStr(r.name)])
  }

  function AsPyList(sel: seq<QuestionRef>): (r: seq<PyValue>)
    ensures |r| == |sel| && forall k :: 0 <= k < |sel| ==> r[k] == AsPyValue(sel[k])
  {
    seq(|sel|, k requires 0 <= k < |sel| => AsPyValue(sel[k]))
  }

  /** The names `x in l` can find in a Python list l: its str elements. */
  function StrElements(l: seq<PyValue>): (r: seq<string>)
    ensures forall x :: x in r <==> PyStr(x) in l
  {
    if l == [] then []
    else
      var init := StrElements(l[..|l| - 1]);
      var last := l[|l| - 1];
      assert forall v :: v in l <==> v in l[..|l| - 1] || v == last;
      init + (match last case PyStr(s) => [s] case PyList(_) => [])
  }

  /** hasRestriction(Exam.questions, question) as called at exam.py:504. */
  function HasRestrictionAsCalled(groups: seq<seq<string>>, acc: seq<QuestionRef>, q: string): bool
  {
    HasRestriction(groups, StrElements(AsPyList(acc)), q)
  }

  /** The call never reports a conflict, whatever the groups. */
  lemma AsCalledNeverConflicts(groups: seq<seq<string>>, acc: seq<QuestionRef>, q: string)
    ensures !HasRestrictionAsCalled(groups, acc, q)
  {
  }

  /** The walk at exam.py:503-509 with the call as written. */
  function WalkPoolAsWritten(groups: seq<seq<string>>, acc: seq<QuestionRef>, pool: seq<QuestionRef>, quant: int, taken: int)
    : seq<QuestionRef>
    decreases |pool|
  {
    if pool == [] then acc
    else
      var accept := !HasRestrictionAsCalled(groups, acc, pool[0].name);
      var acc' := if accept then acc + [pool[0]] else acc;
      if accept && taken + 1 >= quant then acc'
      else WalkPoolAsWritten(groups, acc', pool[1..], quant, if accept then taken + 1 else taken)
  }

  function SelectAsWritten(groups: seq<seq<string>>, acc: seq<QuestionRef>, plans: seq<PoolPlan>): seq<QuestionRef>
    decreases |plans|
  {
    if plans == [] then acc
    else SelectAsWritten(groups, WalkPoolAsWritten(groups, acc, plans[0].pool, plans[0].quant, 0), plans[1..])
  }

  /** As written, the walk is the walk with no restriction groups at all. */
  lemma {:induction false} WalkPoolAsWrittenIgnoresGroups(groups: seq<seq<string>>, acc: seq<QuestionRef>, pool: seq<QuestionRef>, quant: int, taken: int)
    ensures WalkPoolAsWritten(groups, acc, pool, quant, taken) == WalkPool([], acc, pool, quant, taken)
    decreases |pool|
  {
    if pool != [] {
      AsCalledNeverConflicts(groups, acc, pool[0].name);
      assert !HasRestriction([], Names(acc), pool[0].name);
      if taken + 1 < quant {
        WalkPoolAsWrittenIgnoresGroups(groups, acc + [pool[0]], pool[1..], quant, taken + 1);
      }
    }
  }

  lemma {:induction false} SelectAsWrittenIgnoresGroups(groups: seq<seq<string>>, acc: seq<QuestionRef>, plans: seq<PoolPlan>)
    ensures SelectAsWritten(groups, acc, plans) == Select([], acc, plans)
    decreases |plans|
  {
    if plans != [] {
      WalkPoolAsWrittenIgnoresGroups(groups, acc, plans[0].pool, plans[0].quant, 0);
      SelectAsWrittenIgnoresGroups(groups, WalkPool([], acc, plans[0].pool, plans[0].quant, 0), plans[1..]);
    }
  }

  /** The input that shows it: two files F1 and F2 of prefix F, configured
      as mutually exclusive, with "*" requested. As written both are
      chosen; with the names of the chosen questions the walk keeps one
      and the run then stops with too few questions. */
  lemma RestrictedPairBothChosen()
    ensures var groups := [["F1", "F2"]];
      var pool := [QuestionRef("d", "F", "F1"), QuestionRef("d", "F", "F2")];
      && SelectAsWritten(groups, [], [PoolPlan(pool, 2)]) == pool
      && !ConflictFree(groups, multiset(pool))
      && Select(groups, [], [PoolPlan(pool, 2)]) == [pool[0]]
  {
    var groups := [["F1", "F2"]];
    var a, b := QuestionRef("d", "F", "F1"), QuestionRef("d", "F", "F2");
    var pool := [a, b];
    SelectAsWrittenIgnoresGroups(groups, [], [PoolPlan(pool, 2)]);
    WalkPoolUnrestricted([], pool, 2, 0);
    assert pool[..2] == pool;
    assert a.name in groups[0] && b.name in groups[0] && a != b;
    assert !HasRestriction(groups, Names([]), "F1");
    assert Names([a]) == ["F1"];
    assert Meets(groups[0], Names([a]));
    assert HasRestriction(groups, Names([a]), "F2");
    assert [b][1..] == [];
  }
}
