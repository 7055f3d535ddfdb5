/** `Pf2::Reporter::Annotate` (`lib/pf2/reporter/annotate.rb`): hit counts
    per source line. Every sample adds its weight to the total of each
    location on its stack, once per occurrence, and to the self count of
    its leaf location; the counts are then filed by function file name and
    location line. Printing the annotated files is left out. */
module Annotate {
  import opened Wrappers
  import opened ReportProfile

  /** `HitCount`: the self and total hits of a location or line. */
  datatype HitCount = HitCount(self: int, total: int)

  datatype AnnotateError = NoMethodError

  /** `hits_per_location`, as its entries in insertion order. */
  type Tally = seq<(nat, HitCount)>

  /** `sample[:count] || 1`. */
  function Weight(s: Sample): int {
    s.count.GetOr(1)
  }

  /* ----- A Ruby hash kept as its entries in insertion order ----- */

  /** The position of key `k`: its last entry. */
  function Find<K(==), V>(m: seq<(K, V)>, k: K): (r: Option<nat>)
    ensures r.Some? ==> r.value < |m| && m[r.value].0 == k && forall j :: r.value < j < |m| ==> m[j].0 != k
    ensures r.None? ==> forall i :: 0 <= i < |m| ==> m[i].0 != k
    decreases |m|
  {
    if |m| == 0 then None
    else if m[|m| - 1].0 == k then Some(|m| - 1)
    else Find(m[..|m| - 1], k)
  }

  /** `h[k]`. */
  function Lookup<K(==), V>(m: seq<(K, V)>, k: K): Option<V> {
    match Find(m, k)
    case Some(i) => Some(m[i].1)
    case None => None
  }

  /** `h[k] = v`: a known key keeps its place, a new one goes last. */
  function Put<K(==), V>(m: seq<(K, V)>, k: K, v: V): seq<(K, V)> {
    match Find(m, k)
    case Some(i) => m[i := (k, v)]
    case None => m + [(k, v)]
  }

  /** `Find` only looks at the keys. */
  lemma {:induction false} FindSameKeys<K, V>(m: seq<(K, V)>, r: seq<(K, V)>, x: K)
    requires |m| == |r| && forall j :: 0 <= j < |m| ==> r[j].0 == m[j].0
    ensures Find(r, x) == Find(m, x)
    decreases |m|
  {
    if |m| > 0 && m[|m| - 1].0 != x {
      FindSameKeys(m[..|m| - 1], r[..|r| - 1], x);
    }
  }

  /** After `h[k] = v`, `k` reads `v` and every other key reads as
      before. */
  lemma LookupPut<K, V>(m: seq<(K, V)>, k: K, v: V, x: K)
    ensures Lookup(Put(m, k, v), x) == if x == k then Some(v) else Lookup(m, x)
  {
    var r := Put(m, k, v);
    match Find(m, k)
    case Some(i) =>
      FindSameKeys(m, r, x);
    case None =>
      assert r[..|m|] == m;
  }

  /* ----- `hits_per_location` ----- */

  /** The hits of a location, zero when it has none. */
  function Get(t: Tally, loc: nat): HitCount {
    Lookup(t, loc).GetOr(HitCount(0, 0))
  }

  /** `hits_per_location[location_id] ||= HitCount.new(0, 0)` and then
      `.total += weight`. */
  function AddTotal(t: Tally, loc: nat, w: int): Tally {
    Put(t, loc, HitCount(Get(t, loc).self, Get(t, loc).total + w))
  }

  /** The inner `sample[:stack].each`: a total hit for every frame. */
  function AddTotals(t: Tally, stack: seq<nat>, w: int): Tally
    decreases |stack|
  {
    if |stack| == 0 then t else AddTotal(AddTotals(t, stack[..|stack| - 1], w), stack[|stack| - 1], w)
  }

  /** `hits_per_location[topmost_location_id].self += weight`: `nil.self`
      raises when the leaf has no entry. */
  function AddSelf(t: Tally, loc: Option<nat>, w: int): Result<Tally, AnnotateError> {
    if loc.None? || Lookup(t, loc.value).None? then Failure(NoMethodError)
    else Success(Put(t, loc.value, HitCount(Get(t, loc.value).self + w, Get(t, loc.value).total)))
  }

  /** One sample: the totals, then the self hit of `sample[:stack][0]`
      (`nil` for an empty stack). */
  function TallySample(t: Tally, s: Sample): Result<Tally, AnnotateError> {
    AddSelf(AddTotals(t, s.stack, Weight(s)), if |s.stack| == 0 then None else Some(s.stack[0]), Weight(s))
  }

  /** The `@profile[:samples].each` loop of `tally_by_source_code_line`. */
  function TallySamples(samples: seq<Sample>): Result<Tally, AnnotateError>
    decreases |samples|
  {
    if |samples| == 0 then Success([])
    else
      var t :- TallySamples(samples[..|samples| - 1]);
      TallySample(t, samples[|samples| - 1])
  }

  /* ----- What the counts mean ----- */

  /** The total hits a location should get: each sample's weight times the
      number of times the location is on its stack. */
  function TotalHits(samples: seq<Sample>, loc: nat): int
    decreases |samples|
  {
    if |samples| == 0 then 0
    else
      var s := samples[|samples| - 1];
      TotalHits(samples[..|samples| - 1], loc) + Weight(s) * multiset(s.stack)[loc]
  }

  /** The self hits a location should get: the weights of the samples it
      is the leaf of. */
  function SelfHits(samples: seq<Sample>, loc: nat): int
    decreases |samples|
  {
    if |samples| == 0 then 0
    else
      var s := samples[|samples| - 1];
      SelfHits(samples[..|samples| - 1], loc) + (if |s.stack| > 0 && s.stack[0] == loc then Weight(s) else 0)
  }

  /** One total hit: `loc` gains `w` total hits and is present
      afterwards; present keys stay present; nothing else changes. */
  lemma AddTotalCounts(t: Tally, loc: nat, w: int)
    ensures forall x :: Get(AddTotal(t, loc, w), x) == HitCount(Get(t, x).self, Get(t, x).total + (if x == loc then w else 0))
    ensures forall x :: Lookup(AddTotal(t, loc, w), x).Some? <==> x == loc || Lookup(t, x).Some?
  {
    forall x ensures Lookup(AddTotal(t, loc, w), x) == if x == loc then Some(HitCount(Get(t, loc).self, Get(t, loc).total + w)) else Lookup(t, x) {
      LookupPut(t, loc, HitCount(Get(t, loc).self, Get(t, loc).total + w), x);
    }
  }

  lemma Distribute(w: int, n: int)
    ensures w * (n + 1) == w * n + w
  {
  }

  /** The totals of one stack: every location gains `w` per occurrence on
      the stack and every location on it is present afterwards. */
  lemma {:induction false} AddTotalsCounts(t: Tally, stack: seq<nat>, w: int)
    ensures forall x :: Get(AddTotals(t, stack, w), x) == HitCount(Get(t, x).self, Get(t, x).total + w * multiset(stack)[x])
    ensures forall x :: x in stack ==> Lookup(AddTotals(t, stack, w), x).Some?
    decreases |stack|
  {
    if |stack| > 0 {
      var init := stack[..|stack| - 1];
      var loc := stack[|stack| - 1];
      var t1 := AddTotals(t, init, w);
      AddTotalsCounts(t, init, w);
      AddTotalCounts(t1, loc, w);
      assert stack == init + [loc];
      forall x ensures Get(AddTotals(t, stack, w), x) == HitCount(Get(t, x).self, Get(t, x).total + w * multiset(stack)[x]) {
        var n := multiset(init)[x];
        assert multiset(stack)[x] == n + (if x == loc then 1 else 0);
        Distribute(w, n);
      }
      forall x | x in stack ensures Lookup(AddTotals(t, stack, w), x).Some? {
        assert x in init || x == loc;
      }
    }
  }

  /** The hits of `x` once sample `s` (with a non-empty stack) is counted
      on top of `h`. */
  function Counted(h: HitCount, s: Sample, x: nat): HitCount
    requires |s.stack| > 0
  {
    HitCount(h.self + (if s.stack[0] == x then Weight(s) else 0), h.total + Weight(s) * multiset(s.stack)[x])
  }

  /** The tally of one sample succeeds exactly when its stack is not
      empty; then its weight goes to its leaf's self count and to the
      total of every occurrence on its stack. */
  lemma TallySampleCounts(t: Tally, s: Sample)
    ensures TallySample(t, s).Success? <==> |s.stack| > 0
    ensures TallySample(t, s).Success? ==> forall x :: Get(TallySample(t, s).value, x) == Counted(Get(t, x), s, x)
  {
    var totals := AddTotals(t, s.stack, Weight(s));
    AddTotalsCounts(t, s.stack, Weight(s));
    if |s.stack| > 0 {
      var leaf := s.stack[0];
      assert leaf in s.stack;
      var v := HitCount(Get(totals, leaf).self + Weight(s), Get(totals, leaf).total);
      assert TallySample(t, s).value == Put(totals, leaf, v);
      forall x ensures Get(Put(totals, leaf, v), x) == Counted(Get(t, x), s, x) {
        LookupPut(totals, leaf, v, x);
      }
    }
  }

  /** The tally succeeds exactly when no sample has an empty stack. */
  lemma {:induction false} TallySucceeds(samples: seq<Sample>)
    ensures TallySamples(samples).Success? <==> forall i :: 0 <= i < |samples| ==> |samples[i].stack| > 0
    decreases |samples|
  {
    if |samples| > 0 {
      var init := samples[..|samples| - 1];
      TallySucceeds(init);
      if TallySamples(init).Success? {
        TallySampleCounts(TallySamples(init).value, samples[|samples| - 1]);
      }
      if (forall i :: 0 <= i < |init| ==> |init[i].stack| > 0) && |samples[|samples| - 1].stack| > 0 {
        forall i | 0 <= i < |samples| ensures |samples[i].stack| > 0 {
          if i < |init| {
            assert samples[i] == init[i];
          }
        }
      }
    }
  }

  /** The tally succeeds exactly when no sample has an empty stack; then
      every location's total is its weighted number of occurrences on the
      stacks and its self count the weight of the samples it is the leaf
      of. */
  lemma {:induction false} TallyCounts(samples: seq<Sample>)
    ensures TallySamples(samples).Success? <==> forall i :: 0 <= i < |samples| ==> |samples[i].stack| > 0
    ensures TallySamples(samples).Success? ==> forall x ::
      Get(TallySamples(samples).value, x) == HitCount(SelfHits(samples, x), TotalHits(samples, x))
    decreases |samples|
  {
    TallySucceeds(samples);
    if |samples| > 0 && TallySamples(samples).Success? {
      var init := samples[..|samples| - 1];
      TallyCounts(init);
      TallySampleCounts(TallySamples(init).value, samples[|samples| - 1]);
    }
  }

  /** With weights that are never negative, a location's self hits never
      exceed its total hits. */
  lemma {:induction false} SelfWithinTotal(samples: seq<Sample>, loc: nat)
    requires forall i :: 0 <= i < |samples| ==> Weight(samples[i]) >= 0
    ensures 0 <= SelfHits(samples, loc) <= TotalHits(samples, loc)
    decreases |samples|
  {
    if |samples| > 0 {
      var s := samples[|samples| - 1];
      SelfWithinTotal(samples[..|samples| - 1], loc);
      if |s.stack| > 0 && s.stack[0] == loc {
        assert loc in multiset(s.stack);
      }
    }
  }

  /** The self hits of all locations add up to the weight of all samples:
      each sample has exactly one leaf. */
  lemma {:induction false} SelfHitsSumToWeight(samples: seq<Sample>)
    requires TallySamples(samples).Success?
    ensures SumSelf(TallySamples(samples).value) == TotalWeight(samples)
    decreases |samples|
  {
    if |samples| > 0 {
      var init := samples[..|samples| - 1];
      SelfHitsSumToWeight(init);
      SampleSelfSum(TallySamples(init).value, samples[|samples| - 1]);
    }
  }

  /** One sample adds its weight to the sum of self hits. */
  lemma SampleSelfSum(t: Tally, s: Sample)
    requires TallySample(t, s).Success?
    ensures SumSelf(TallySample(t, s).value) == SumSelf(t) + Weight(s)
  {
    var totals := AddTotals(t, s.stack, Weight(s));
    AddTotalsSelf(t, s.stack, Weight(s));
    AddSelfSum(totals, if |s.stack| == 0 then None else Some(s.stack[0]), Weight(s));
  }

  /** Filing a self hit adds its weight to the sum of self hits. */
  lemma AddSelfSum(t: Tally, loc: Option<nat>, w: int)
    requires AddSelf(t, loc, w).Success?
    ensures SumSelf(AddSelf(t, loc, w).value) == SumSelf(t) + w
  {
    SumSelfPut(t, loc.value, HitCount(Get(t, loc.value).self + w, Get(t, loc.value).total));
  }

  function SumSelf(t: Tally): int
    decreases |t|
  {
    if |t| == 0 then 0 else SumSelf(t[..|t| - 1]) + t[|t| - 1].1.self
  }

  function TotalWeight(samples: seq<Sample>): int
    decreases |samples|
  {
    if |samples| == 0 then 0 else TotalWeight(samples[..|samples| - 1]) + Weight(samples[|samples| - 1])
  }

  lemma {:induction false} SumSelfUpdate(t: Tally, i: nat, h: HitCount)
    requires i < |t|
    ensures SumSelf(t[i := (t[i].0, h)]) == SumSelf(t) - t[i].1.self + h.self
    decreases |t|
  {
    var r := t[i := (t[i].0, h)];
    if i < |t| - 1 {
      SumSelfUpdate(t[..|t| - 1], i, h);
      assert r[..|r| - 1] == t[..|t| - 1][i := (t[i].0, h)];
    } else {
      assert r[..|r| - 1] == t[..|t| - 1];
    }
  }

  /** `h[k] = v` trades the self hits stored under `k` for those of `v`. */
  lemma SumSelfPut(t: Tally, k: nat, v: HitCount)
    ensures SumSelf(Put(t, k, v)) == SumSelf(t) - Get(t, k).self + v.self
  {
    match Find(t, k)
    case Some(i) =>
      SumSelfUpdate(t, i, v);
    case None =>
      assert (t + [(k, v)])[..|t|] == t;
  }

  /** Adding totals leaves the sum of self hits alone. */
  lemma {:induction false} AddTotalsSelf(t: Tally, stack: seq<nat>, w: int)
    ensures SumSelf(AddTotals(t, stack, w)) == SumSelf(t)
    decreases |stack|
  {
    if |stack| > 0 {
      var t1 := AddTotals(t, stack[..|stack| - 1], w);
      AddTotalsSelf(t, stack[..|stack| - 1], w);
      var loc := stack[|stack| - 1];
      SumSelfPut(t1, loc, HitCount(Get(t1, loc).self, Get(t1, loc).total + w));
    }
  }

  /* ----- Filing the counts by source line ----- */

  /** `SourceCodeHits`: a file's hits by line number (a hash kept as its
      entries). */
  datatype SourceCodeHits = SourceCodeHits(path: string, lineCount: seq<(int, HitCount)>)

  type Files = seq<(string, SourceCodeHits)>

  /** One entry of `hits_per_location.each`: the location and its function
      must exist; a function without a file name is skipped; otherwise the
      hits are stored under the file and the location's line, replacing
      what an earlier location of the same line stored. */
  function FileEntry(p: Profile, files: Files, loc: nat, hits: HitCount): (r: Result<Files, AnnotateError>)
    ensures r.Success? <==> Resolves(p, loc)
  {
    match FunctionOf(p, loc)
    case None => Failure(NoMethodError)
    case Some(f) =>
      if f.filename.None? then Success(files)
      else
        var name := f.filename.value;
        var entry := Lookup(files, name).GetOr(SourceCodeHits(name, []));
        Success(Put(files, name, SourceCodeHits(entry.path, Put(entry.lineCount, p.locations[loc].lineno, hits))))
  }

  /** The second loop of `tally_by_source_code_line`. */
  function FileHits(p: Profile, t: Tally): (r: Result<Files, AnnotateError>)
    decreases |t|
  {
    if |t| == 0 then Success([])
    else
      var files :- FileHits(p, t[..|t| - 1]);
      FileEntry(p, files, t[|t| - 1].0, t[|t| - 1].1)
  }

  /** `tally_by_source_code_line`. */
  function TallyBySourceCodeLine(p: Profile): Result<Files, AnnotateError> {
    var t :- TallySamples(p.samples);
    FileHits(p, t)
  }

  /** The file and line a tallied location is filed under, if any. */
  predicate FiledAt(p: Profile, loc: nat, file: string, line: int) {
    && Resolves(p, loc)
    && p.functions[p.locations[loc].functionIndex].filename == Some(file)
    && p.locations[loc].lineno == line
  }

  /** The hits shown for a file and line: those of the last tallied
      location filed there. */
  predicate LastFiled(p: Profile, t: Tally, file: string, line: int, hits: HitCount) {
    exists i :: 0 <= i < |t| && FiledAt(p, t[i].0, file, line) && t[i].1 == hits
      && forall j :: i < j < |t| ==> !FiledAt(p, t[j].0, file, line)
  }

  /** The hits stored for a file and line, if any. */
  function Shown(files: Files, file: string, line: int): Option<HitCount> {
    match Lookup(files, file)
    case None => None
    case Some(e) => Lookup(e.lineCount, line)
  }

  /** What `files` shows for the tallied locations `t`: at each file and
      line the hits of the last location filed there, nothing where no
      location is filed. */
  ghost predicate ShowsLast(p: Profile, t: Tally, files: Files) {
    forall file, line ::
      match Shown(files, file, line)
      case None => forall i :: 0 <= i < |t| ==> !FiledAt(p, t[i].0, file, line)
      case Some(h) => LastFiled(p, t, file, line, h)
  }

  /** Filing succeeds exactly when every tallied location and its
      function exist. */
  lemma {:induction false} FileHitsSucceed(p: Profile, t: Tally)
    ensures FileHits(p, t).Success? <==> forall i :: 0 <= i < |t| ==> Resolves(p, t[i].0)
    decreases |t|
  {
    if |t| > 0 {
      var init := t[..|t| - 1];
      FileHitsSucceed(p, init);
      if (forall i :: 0 <= i < |init| ==> Resolves(p, init[i].0)) && Resolves(p, t[|t| - 1].0) {
        forall i | 0 <= i < |t| ensures Resolves(p, t[i].0) {
          if i < |init| {
            assert t[i] == init[i];
          }
        }
      }
    }
  }

  /** Filing succeeds exactly when every tallied location and its
      function exist; then each file and line shows the hits of the last
      location filed there, and nothing where no location is filed. */
  lemma {:induction false} FileHitsShowLast(p: Profile, t: Tally)
    ensures FileHits(p, t).Success? <==> forall i :: 0 <= i < |t| ==> Resolves(p, t[i].0)
    ensures FileHits(p, t).Success? ==> ShowsLast(p, t, FileHits(p, t).value)
    decreases |t|
  {
    FileHitsSucceed(p, t);
    if |t| > 0 && FileHits(p, t).Success? {
      var init := t[..|t| - 1];
      FileHitsShowLast(p, init);
      ShowLastStep(p, t, FileHits(p, init).value);
    }
  }

  /** Filing the last tallied location on top of the earlier ones keeps
      `ShowsLast`. */
  lemma ShowLastStep(p: Profile, t: Tally, files: Files)
    requires |t| > 0 && ShowsLast(p, t[..|t| - 1], files)
    requires FileEntry(p, files, t[|t| - 1].0, t[|t| - 1].1).Success?
    ensures ShowsLast(p, t, FileEntry(p, files, t[|t| - 1].0, t[|t| - 1].1).value)
  {
    var init := t[..|t| - 1];
    var last := t[|t| - 1];
    var r := FileEntry(p, files, last.0, last.1).value;
    forall file, line ensures
      match Shown(r, file, line)
      case None => forall i :: 0 <= i < |t| ==> !FiledAt(p, t[i].0, file, line)
      case Some(h) => LastFiled(p, t, file, line, h)
    {
      FileEntryShown(p, files, last.0, last.1, file, line);
      if FiledAt(p, last.0, file, line) {
        assert LastFiled(p, t, file, line, last.1);
      } else {
        match Shown(files, file, line)
        case None =>
          forall i | 0 <= i < |t| ensures !FiledAt(p, t[i].0, file, line) {
            if i < |init| {
              assert t[i] == init[i];
            }
          }
        case Some(h) =>
          var i :| 0 <= i < |init| && FiledAt(p, init[i].0, file, line) && init[i].1 == h
            && forall j :: i < j < |init| ==> !FiledAt(p, init[j].0, file, line);
          assert t[i] == init[i];
          forall j | i < j < |t| ensures !FiledAt(p, t[j].0, file, line) {
            if j < |init| {
              assert t[j] == init[j];
            }
          }
      }
    }
  }

  /** One filing step changes only the file and line of its location. */
  lemma FileEntryShown(p: Profile, files: Files, loc: nat, hits: HitCount, file: string, line: int)
    requires FileEntry(p, files, loc, hits).Success?
    ensures Shown(FileEntry(p, files, loc, hits).value, file, line) ==
      if FiledAt(p, loc, file, line) then Some(hits) else Shown(files, file, line)
  {
    var f := FunctionOf(p, loc).value;
    if f.filename.Some? {
      var name := f.filename.value;
      var entry := Lookup(files, name).GetOr(SourceCodeHits(name, []));
      var lines := Put(entry.lineCount, p.locations[loc].lineno, hits);
      LookupPut(files, name, SourceCodeHits(entry.path, lines), file);
      LookupPut(entry.lineCount, p.locations[loc].lineno, hits, line);
    }
  }

  /** `ignorable_path?`: a path Ruby reports for its own built-in code. */
  function IgnorablePath(path: string): (r: bool)
    ensures r ==> |path| >= 10 && path[0] == '<'
  {
    |path| >= 10 && path[..10] == "<internal:"
  }

  /** Every `<internal:...>` path is ignorable and no absolute path is. */
  lemma InternalPathsIgnorable(rest: string)
    ensures IgnorablePath("<internal:" + rest)
    ensures !IgnorablePath("/" + rest)
  {
    assert ("<internal:" + rest)[..10] == "<internal:";
  }
}
