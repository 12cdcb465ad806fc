/** Runs over the table: what a patching run keeps, when one that does not succeed leaves a trace, and what it promises
    at its end. */
module PatchRuns {
  import opened Jumps
  import opened PatchTables
  import opened Standing

  // ---- which sites a run tries, and when a failed one leaves a trace

  /** The run asks for access to this site when it processes the entry. */
  predicate LiveSite(e: Entry, a: int) {
    |e.patches| == PATCH_DATA_COUNT && 0 <= a < PATCH_DATA_COUNT && e.patches[0].fd != 0 && e.patches[a].fd != 0
  }

  /** And has something to write there. */
  predicate EffectiveSite(e: Entry, a: int, mode: Mode) {
    LiveSite(e, a) && TargetOf(e, mode) != 0
  }

  predicate NamedThrough(t: seq<Entry>, j: int) {
    j < |t| && forall k :: 0 <= k <= j ==> t[k].named
  }

  /** Site a of entry i is effective and site b of entry j is live and comes later, before any unnamed entry. */
  predicate ExposedAt(t: seq<Entry>, mode: Mode, i: int, a: int, j: int, b: int) {
    && 0 <= i <= j < PATCH_COUNT <= |t| && (i < j || a < b) && NamedThrough(t, j)
    && EffectiveSite(t[i], a, mode) && LiveSite(t[j], b)
  }

  /** Some effective site is followed by a live one before the first unnamed entry. */
  ghost predicate Exposed(t: seq<Entry>, mode: Mode) {
    exists i, a, j, b :: ExposedAt(t, mode, i, a, j, b)
  }

  /** The first entry from i on whose first site is effective, or the number of entries. */
  function FirstEffective(t: seq<Entry>, mode: Mode, i: nat): (r: nat)
    requires i <= PATCH_COUNT <= |t|
    ensures i <= r <= PATCH_COUNT && forall k :: i <= k < r ==> !EffectiveSite(t[k], 0, mode)
    ensures r < PATCH_COUNT ==> EffectiveSite(t[r], 0, mode)
    decreases PATCH_COUNT - i
  {
    if i == PATCH_COUNT || EffectiveSite(t[i], 0, mode) then i else FirstEffective(t, mode, i + 1)
  }

  ghost predicate Alone(e: Entry) {
    forall b :: 1 <= b < |e.patches| ==> e.patches[b].fd == 0
  }

  /** A live site comes after the first one of entry i. */
  ghost predicate Followed(t: seq<Entry>, i: nat) {
    && i < PATCH_COUNT <= |t| && NamedThrough(t, i)
    && (!Alone(t[i]) || exists j :: i < j < PATCH_COUNT && NamedThrough(t, j) && LiveSite(t[j], 0))
  }

  lemma ExposedFollowed(t: seq<Entry>, mode: Mode, i: int, a: int, j: int, b: int)
    requires ExposedAt(t, mode, i, a, j, b)
    ensures Followed(t, FirstEffective(t, mode, 0))
  {
    hide FirstEffective;
    assert EffectiveSite(t[i], 0, mode) && LiveSite(t[j], 0);
  }

  lemma FollowedExposed(t: seq<Entry>, mode: Mode)
    requires FreshTable(t) && Followed(t, FirstEffective(t, mode, 0))
    ensures Exposed(t, mode)
  {
    hide FirstEffective;
    var first := FirstEffective(t, mode, 0);
    if Alone(t[first]) {
      var j :| first < j < PATCH_COUNT && NamedThrough(t, j) && LiveSite(t[j], 0);
      assert ExposedAt(t, mode, first, 0, j, 0);
    } else {
      var b :| 1 <= b < |t[first].patches| && t[first].patches[b].fd != 0;
      assert ExposedAt(t, mode, first, 0, first, b);
    }
  }

  lemma ExposedFirst(t: seq<Entry>, mode: Mode)
    requires FreshTable(t)
    ensures Exposed(t, mode) <==> Followed(t, FirstEffective(t, mode, 0))
  {
    hide FirstEffective, Followed, ExposedAt;
    if Exposed(t, mode) {
      var i, a, j, b :| ExposedAt(t, mode, i, a, j, b);
      ExposedFollowed(t, mode, i, a, j, b);
    }
    if Followed(t, FirstEffective(t, mode, 0)) { FollowedExposed(t, mode); }
  }

  /** The number of live sites among the first k of the entry. */
  function LiveUpTo(e: Entry, k: nat): nat
    requires k <= |e.patches|
  {
    if k == 0 then 0 else LiveUpTo(e, k - 1) + if LiveSite(e, k - 1) then 1 else 0
  }

  lemma LiveNone(e: Entry)
    ensures LiveUpTo(e, 0) == 0
  {
  }

  lemma LiveNext(e: Entry, a: nat)
    requires a < |e.patches|
    ensures LiveUpTo(e, a + 1) == LiveUpTo(e, a) + if LiveSite(e, a) then 1 else 0
  {
  }

  lemma {:induction false} LiveMonotone(e: Entry, j: nat, k: nat)
    requires j <= k <= |e.patches|
    ensures LiveUpTo(e, j) <= LiveUpTo(e, k)
  {
    if j < k { LiveMonotone(e, j, k - 1); }
  }

  lemma {:induction false} NoneLive(e: Entry, k: nat)
    requires k <= |e.patches| && (|e.patches| == PATCH_DATA_COUNT ==> e.patches[0].fd == 0)
    ensures LiveUpTo(e, k) == 0
  {
    if k > 0 { NoneLive(e, k - 1); }
  }

  /** The number of live sites in the first i entries. */
  function LiveTotal(t: seq<Entry>, i: nat): nat
    requires i <= |t|
  {
    if i == 0 then 0 else LiveTotal(t, i - 1) + LiveUpTo(t[i - 1], |t[i - 1].patches|)
  }

  lemma {:induction false} TotalMonotone(t: seq<Entry>, i: nat, j: nat)
    requires i <= j <= |t|
    ensures LiveTotal(t, i) <= LiveTotal(t, j)
  {
    if i < j { TotalMonotone(t, i, j - 1); }
  }

  /** The site left its mark: some byte differs, and exactly the slot if it is an import. */
  ghost predicate SiteMarked(before: Memory, after: Memory, p: PatchData, target: int) {
    !Agree(after, before, {}) && (p.usePatchedImports ==> after == Write(before, p.fd, LittleEndian(target, 8)))
  }

  // ---- a run in which the request after the first effective site is refused

  /** What changes while sites are tried. */
  datatype Status = Status(mem: Memory, slots: set<int>, calls: int)

  /** The first k sites are done: nothing shows while there is no target; with one, over zeroed memory, the
      first site shows, and no other site is live when the request after it is refused. */
  ghost predicate SitesDone(e: Entry, target: int, f: Entry, k: nat, before: Status, now: Status, grants: nat -> bool)
    requires |e.patches| == |f.patches| == PATCH_DATA_COUNT && k <= PATCH_DATA_COUNT && before.calls >= 0
  {
    && now.calls >= before.calls && (k > 0 ==> grants(before.calls))
    && (k == 0 || target == 0 ==>
        && now.mem == before.mem && now.slots == before.slots && now.calls == before.calls + 2 * LiveUpTo(e, k)
        && Bare(f))
    && (k > 0 && target != 0 && Zeroed(before.mem) && !grants(before.calls + 2) ==>
        && now.slots == before.slots && now.calls == before.calls + 2
        && SiteMarked(before.mem, now.mem, e.patches[0], target)
        && f.patches[0].modeStore != Unpatched && f.patches[0].saved != []
        && forall b :: 1 <= b < k ==> e.patches[b].fd == 0)
  }

  /** The outcome for an entry whose first site is live; `at` is the refused site. */
  ghost predicate SitesTried(e: Entry, target: int, ok: bool, f: Entry, at: nat, before: Status, now: Status,
                             grants: nat -> bool)
    requires |e.patches| == |f.patches| == PATCH_DATA_COUNT && before.calls >= 0
  {
    && at <= PATCH_DATA_COUNT && (ok <==> at == PATCH_DATA_COUNT) && (!ok ==> LiveSite(e, at))
    && now.calls >= before.calls && (at == 0 <==> !grants(before.calls))
    && (target == 0 || at == 0 ==> now.mem == before.mem && now.slots == before.slots && Bare(f))
    && (target == 0 && ok ==> now.calls == before.calls + 2 * LiveUpTo(e, PATCH_DATA_COUNT))
    && (target == 0 && !ok ==> !grants(before.calls + 2 * LiveUpTo(e, at)))
    && (at > 0 && target != 0 && Zeroed(before.mem) && !grants(before.calls + 2) ==>
        && now.slots == before.slots && SiteMarked(before.mem, now.mem, e.patches[0], target) && Retained(f)
        && now.calls >= before.calls + 2 && (ok ==> now.calls == before.calls + 2) && (ok <==> Alone(e)))
  }

  lemma SitesDoneNone(e: Entry, target: int, f: Entry, now: Status, grants: nat -> bool)
    requires |e.patches| == |f.patches| == PATCH_DATA_COUNT && now.calls >= 0 && Bare(f)
    ensures SitesDone(e, target, f, 0, now, now, grants)
  {
  }

  lemma SitesDoneMore(e: Entry, target: int, f: Entry, g: Entry, k: nat, before: Status, mid: Status, now: Status,
                      grants: nat -> bool)
    requires FreshEntry(e) && e.patches[0].fd != 0 && |f.patches| == |g.patches| == PATCH_DATA_COUNT
    requires k < PATCH_DATA_COUNT && before.calls >= 0 && mid.calls >= 0
    requires SitesDone(e, target, f, k, before, mid, grants)
    requires forall a :: 0 <= a < PATCH_DATA_COUNT && a != k ==> g.patches[a] == f.patches[a]
    requires e.patches[k].fd == 0 ==> now == mid && g == f
    requires e.patches[k].fd != 0 ==>
      && now.calls >= mid.calls && grants(mid.calls) && g.patches[k].modeStore != Unpatched
      && (target == 0 ==> now == mid.(calls := mid.calls + 2) && g.patches[k].saved == f.patches[k].saved)
      && (target != 0 && Zeroed(mid.mem) ==>
          && now.slots == mid.slots && now.calls == mid.calls + 2 && g.patches[k].saved != []
          && SiteMarked(mid.mem, now.mem, e.patches[k], target))
    ensures SitesDone(e, target, g, k + 1, before, now, grants)
  {
    hide SiteMarked, Zeroed, LiveUpTo;
    LiveNone(e);
    LiveNext(e, k);
  }

  lemma SitesRefused(e: Entry, target: int, f: Entry, k: nat, before: Status, mid: Status, now: Status,
                     grants: nat -> bool)
    requires FreshEntry(e) && e.patches[0].fd != 0 && |f.patches| == PATCH_DATA_COUNT && f.patches[0].fd != 0
    requires k < PATCH_DATA_COUNT && before.calls >= 0 && mid.calls >= 0
    requires SitesDone(e, target, f, k, before, mid, grants)
    requires e.patches[k].fd != 0 && !grants(mid.calls)
    requires now.mem == mid.mem && now.slots == mid.slots && now.calls >= mid.calls
    ensures SitesTried(e, target, false, f, k, before, now, grants)
  {
    hide SiteMarked, Zeroed, LiveUpTo;
    LiveNone(e);
  }

  lemma SitesAllDone(e: Entry, target: int, f: Entry, before: Status, now: Status, grants: nat -> bool)
    requires FreshEntry(e) && e.patches[0].fd != 0 && |f.patches| == PATCH_DATA_COUNT && f.patches[0].fd != 0
    requires before.calls >= 0 && SitesDone(e, target, f, PATCH_DATA_COUNT, before, now, grants)
    ensures SitesTried(e, target, true, f, PATCH_DATA_COUNT, before, now, grants)
  {
    hide SiteMarked, Zeroed, LiveUpTo;
  }

  ghost predicate EntryTried(e: Entry, mode: Mode, ok: bool, f: Entry, at: nat, before: Status, now: Status,
                             grants: nat -> bool)
    requires |e.patches| == |f.patches| == PATCH_DATA_COUNT && before.calls >= 0
  {
    if e.patches[0].fd == 0 then ok && f == e && now == before
    else SitesTried(e, TargetOf(e, mode), ok, f, at, before, now, grants)
  }

  /** Exactly the requests up to and including those of the first effective site are granted. */
  ghost predicate Trial(t: seq<Entry>, mode: Mode, grants: nat -> bool, start: nat) {
    && |t| >= PATCH_COUNT && var first := FirstEffective(t, mode, 0);
    Followed(t, first) && forall n: nat :: grants(n) <==> n < start + 2 * LiveTotal(t, first) + 2
  }

  /** Such a run when k entries are done: before the first effective entry nothing shows, behind it its
      mark does and no live site was met. */
  ghost predicate Stage(t: seq<Entry>, u: seq<Entry>, mode: Mode, k: nat, before: Status, now: Status)
    requires |t| == |u| >= PATCH_COUNT >= k && before.calls >= 0
  {
    var first := FirstEffective(t, mode, 0);
    && (k <= first ==> now == before.(calls := before.calls + 2 * LiveTotal(t, k)))
    && (k > first ==>
        && now.calls == before.calls + 2 * LiveTotal(t, first) + 2 && Shown(t, u, mode, before, now)
        && Alone(t[first]) && forall j :: first < j < k ==> !LiveSite(t[j], 0))
  }

  ghost predicate Shown(t: seq<Entry>, u: seq<Entry>, mode: Mode, before: Status, now: Status)
    requires |t| == |u| >= PATCH_COUNT
  {
    var first := FirstEffective(t, mode, 0);
    && first < PATCH_COUNT && now.slots == before.slots && Retained(u[first])
    && LiveSite(t[first], 0) && SiteMarked(before.mem, now.mem, t[first].patches[0], TargetOf(t[first], mode))
    && now.calls >= before.calls + 2 * LiveTotal(t, first) + 2
  }

  lemma StageSkips(t: seq<Entry>, u: seq<Entry>, v: seq<Entry>, mode: Mode, k: nat, ok: bool, at: nat,
    before: Status, mid: Status, now: Status, grants: nat -> bool)
    requires FreshTable(t) && |t| == |u| == |v| && k < PATCH_COUNT && before.calls >= 0 && mid.calls >= 0
    requires Trial(t, mode, grants, before.calls) && Zeroed(before.mem) && Stage(t, u, mode, k, before, mid)
    requires |v[k].patches| == PATCH_DATA_COUNT && EntryTried(t[k], mode, ok, v[k], at, mid, now, grants)
    requires forall i :: 0 <= i < k ==> v[i] == u[i]
    requires !LiveSite(t[k], 0)
    ensures ok && Stage(t, v, mode, k + 1, before, now)
  {
    hide Zeroed, SiteMarked, LiveUpTo, FirstEffective, Followed, Trial;
    NoneLive(t[k], PATCH_DATA_COUNT);
  }

  lemma StageQuiet(t: seq<Entry>, u: seq<Entry>, v: seq<Entry>, mode: Mode, k: nat, ok: bool, at: nat,
    before: Status, mid: Status, now: Status, grants: nat -> bool)
    requires FreshTable(t) && |t| == |u| == |v| && k < PATCH_COUNT && before.calls >= 0 && mid.calls >= 0
    requires Trial(t, mode, grants, before.calls) && Zeroed(before.mem) && Stage(t, u, mode, k, before, mid)
    requires |v[k].patches| == PATCH_DATA_COUNT && EntryTried(t[k], mode, ok, v[k], at, mid, now, grants)
    requires forall i :: 0 <= i < k ==> v[i] == u[i]
    requires k < FirstEffective(t, mode, 0) && LiveSite(t[k], 0)
    ensures ok && Stage(t, v, mode, k + 1, before, now)
  {
    hide Zeroed, SiteMarked, LiveUpTo, FirstEffective, Followed;
    var e := t[k];
    assert !EffectiveSite(e, 0, mode);
    if at < PATCH_DATA_COUNT {
      LiveNext(e, at);
      LiveMonotone(e, at + 1, PATCH_DATA_COUNT);
    }
    TotalMonotone(t, k + 1, FirstEffective(t, mode, 0));
  }

  lemma StageShows(t: seq<Entry>, u: seq<Entry>, v: seq<Entry>, mode: Mode, k: nat, ok: bool, at: nat,
    before: Status, mid: Status, now: Status, grants: nat -> bool)
    requires FreshTable(t) && |t| == |u| == |v| && k < PATCH_COUNT && before.calls >= 0 && mid.calls >= 0
    requires Trial(t, mode, grants, before.calls) && Zeroed(before.mem) && Stage(t, u, mode, k, before, mid)
    requires |v[k].patches| == PATCH_DATA_COUNT && EntryTried(t[k], mode, ok, v[k], at, mid, now, grants)
    requires forall i :: 0 <= i < k ==> v[i] == u[i]
    requires k == FirstEffective(t, mode, 0)
    ensures if ok then Stage(t, v, mode, k + 1, before, now) else Shown(t, v, mode, before, now)
  {
    hide Zeroed, SiteMarked, LiveUpTo, LiveTotal, FirstEffective, Followed;
  }

  lemma StageRefused(t: seq<Entry>, u: seq<Entry>, v: seq<Entry>, mode: Mode, k: nat, ok: bool, at: nat,
    before: Status, mid: Status, now: Status, grants: nat -> bool)
    requires FreshTable(t) && |t| == |u| == |v| && k < PATCH_COUNT && before.calls >= 0 && mid.calls >= 0
    requires Trial(t, mode, grants, before.calls) && Zeroed(before.mem) && Stage(t, u, mode, k, before, mid)
    requires |v[k].patches| == PATCH_DATA_COUNT && EntryTried(t[k], mode, ok, v[k], at, mid, now, grants)
    requires forall i :: 0 <= i < k ==> v[i] == u[i]
    requires FirstEffective(t, mode, 0) < k && LiveSite(t[k], 0)
    ensures !ok && Shown(t, v, mode, before, now)
  {
    hide Zeroed, SiteMarked, LiveUpTo, LiveTotal, FirstEffective, Followed;
  }

  lemma StageNext(t: seq<Entry>, u: seq<Entry>, v: seq<Entry>, mode: Mode, k: nat, ok: bool, at: nat,
    before: Status, mid: Status, now: Status, grants: nat -> bool)
    requires FreshTable(t) && |t| == |u| == |v| && k < PATCH_COUNT && before.calls >= 0 && mid.calls >= 0
    requires Trial(t, mode, grants, before.calls) && Zeroed(before.mem) && Stage(t, u, mode, k, before, mid)
    requires |v[k].patches| == PATCH_DATA_COUNT && EntryTried(t[k], mode, ok, v[k], at, mid, now, grants)
    requires forall i :: 0 <= i < k ==> v[i] == u[i]
    ensures if ok then Stage(t, v, mode, k + 1, before, now) else Shown(t, v, mode, before, now)
  {
    hide Zeroed, Trial, Stage, Shown, EntryTried, FirstEffective, FreshEntry, LiveSite;
    if !LiveSite(t[k], 0) {
      StageSkips(t, u, v, mode, k, ok, at, before, mid, now, grants);
    } else if k < FirstEffective(t, mode, 0) {
      StageQuiet(t, u, v, mode, k, ok, at, before, mid, now, grants);
    } else if k == FirstEffective(t, mode, 0) {
      StageShows(t, u, v, mode, k, ok, at, before, mid, now, grants);
    } else {
      StageRefused(t, u, v, mode, k, ok, at, before, mid, now, grants);
    }
  }

  /** Such a run does not get past the live site that follows. */
  lemma StageEnds(t: seq<Entry>, u: seq<Entry>, mode: Mode, k: nat, before: Status, now: Status, grants: nat -> bool)
    requires FreshTable(t) && |t| == |u| && k <= PATCH_COUNT && before.calls >= 0
    requires (k == PATCH_COUNT || !t[k].named) && forall i :: 0 <= i < k ==> t[i].named
    ensures !(Trial(t, mode, grants, before.calls) && Stage(t, u, mode, k, before, now))
  {
    hide Zeroed, SiteMarked, LiveUpTo, LiveTotal, FirstEffective;
  }

  lemma StageNone(t: seq<Entry>, u: seq<Entry>, mode: Mode, now: Status)
    requires |t| == |u| >= PATCH_COUNT && now.calls >= 0
    ensures Stage(t, u, mode, 0, now, now)
  {
  }

  /** No effective site among the first k entries. */
  ghost predicate Unexposed(t: seq<Entry>, mode: Mode, k: nat) {
    |t| >= k && forall i :: 0 <= i < k ==> !EffectiveSite(t[i], 0, mode)
  }

  /** While no site was effective nothing changed; a refusal behind an effective site makes the table exposed. */
  lemma UnexposedNext(t: seq<Entry>, mode: Mode, k: nat, ok: bool, f: Entry, at: nat, before: Status, now: Status,
                      grants: nat -> bool)
    requires FreshTable(t) && mode != Unpatched && k < PATCH_COUNT && NamedThrough(t, k) && before.calls >= 0
    requires |f.patches| == PATCH_DATA_COUNT && EntryTried(t[k], mode, ok, f, at, before, now, grants)
    ensures Unexposed(t, mode, k + 1) ==> now.mem == before.mem && Bare(f)
    ensures !ok && !Exposed(t, mode) ==> Unexposed(t, mode, k) && now.mem == before.mem && Bare(f)
  {
    hide LiveUpTo, SiteMarked, Zeroed;
    if !ok {
      if at > 0 && TargetOf(t[k], mode) != 0 { assert ExposedAt(t, mode, k, 0, k, at); }
      if i :| 0 <= i < k && EffectiveSite(t[i], 0, mode) { assert ExposedAt(t, mode, i, 0, k, at); }
    }
  }

  /** A patching run over a fresh table t with k entries done, which left the table u. */
  ghost predicate Progress(t: seq<Entry>, u: seq<Entry>, mode: Mode, k: nat, before: Status, now: Status,
                           grants: nat -> bool)
    requires |t| == |u| >= PATCH_COUNT >= k && before.calls >= 0
  {
    && Agree(UndoTable(u, k, now.mem), before.mem, now.slots)
    && (Spaced(t) && ReadyTable(before.mem, t) ==> TableStands(now.mem, t, u, mode, k))
    && (Unexposed(t, mode, k) ==> now.mem == before.mem && BareTable(u))
    && (Zeroed(before.mem) && Trial(t, mode, grants, before.calls) ==> Stage(t, u, mode, k, before, now))
  }

  /** What the whole run promises. */
  ghost predicate Finished(t: seq<Entry>, u: seq<Entry>, mode: Mode, ok: bool, before: Status, now: Status,
                           grants: nat -> bool)
    requires |t| == |u| >= PATCH_COUNT && before.calls >= 0
  {
    && Agree(UndoTable(u, PATCH_COUNT, now.mem), before.mem, now.slots)
    && (ok && AllNamed(t) && Spaced(t) && ReadyTable(before.mem, t) ==>
         TableStands(now.mem, t, u, mode, PATCH_COUNT))
    && (!ok && !Exposed(t, mode) ==> now.mem == before.mem && BareTable(u))
    && (Zeroed(before.mem) && Trial(t, mode, grants, before.calls) ==> !ok && Shown(t, u, mode, before, now))
  }

  lemma ProgressNone(t: seq<Entry>, mode: Mode, now: Status, grants: nat -> bool)
    requires FreshTable(t) && now.calls >= 0
    ensures Progress(t, t, mode, 0, now, now, grants)
  {
    hide Stage, Trial;
    if ReadyTable(now.mem, t) { NoEntries(now.mem, t, t, mode); }
    StageNone(t, t, mode, now);
  }

  /** The outcome of one entry of a patching run. */
  ghost predicate EntryPatched(e: Entry, mode: Mode, ok: bool, f: Entry, at: nat, mid: Status, now: Status,
                               grants: nat -> bool)
    requires |e.patches| == |f.patches| == PATCH_DATA_COUNT && mid.calls >= 0
  {
    && mid.slots <= now.slots
    && Agree(UndoEntry(f.patches, PATCH_DATA_COUNT, now.mem), mid.mem, now.slots)
    && (ok ==> Respects(mid.mem, now.mem, e, f, PATCH_DATA_COUNT))
    && (ok && Usable(e) && ReadyEntry(mid.mem, e) ==> EntryStands(now.mem, e, f, mode))
    && EntryTried(e, mode, ok, f, at, mid, now, grants)
  }

  lemma ProgressNext(t: seq<Entry>, u: seq<Entry>, v: seq<Entry>, mode: Mode, k: nat, ok: bool, at: nat,
                     before: Status, mid: Status, now: Status, grants: nat -> bool)
    requires FreshTable(t) && mode != Unpatched && |t| == |u| == |v| && k < PATCH_COUNT && NamedThrough(t, k)
    requires before.calls >= 0 && mid.calls >= 0 && Progress(t, u, mode, k, before, mid, grants)
    requires v == u[k := v[k]] && |v[k].patches| == PATCH_DATA_COUNT
    requires EntryPatched(t[k], mode, ok, v[k], at, mid, now, grants)
    ensures ok ==> Progress(t, v, mode, k + 1, before, now, grants)
    ensures !ok && (forall i :: k < i < PATCH_COUNT ==> v[i] == t[i]) ==> Finished(t, v, mode, ok, before, now, grants)
  {
    hide Agree, UndoEntry, UndoTable, Respects, Spaced, Usable, ReadyEntry, ReadyTable, EntryStands, TableStands;
    hide EntryTried, Stage, Trial, Zeroed, Shown, Exposed, Unexposed, Bare;
    EntryUndone(u, v, k, mid.mem, now.mem, before.mem, mid.slots, now.slots);
    UnexposedNext(t, mode, k, ok, v[k], at, mid, now, grants);
    UnexposedBefore(t, mode, k);
    if ok && Spaced(t) && ReadyTable(before.mem, t) {
      SpacedUsable(t, k);
      NextReady(mid.mem, t, u, mode, k);
      TableStandsMore(mid.mem, now.mem, t, u, v, mode, k);
    }
    if Zeroed(before.mem) && Trial(t, mode, grants, before.calls) {
      StageNext(t, u, v, mode, k, ok, at, before, mid, now, grants);
    }
    if !ok && forall i :: k < i < PATCH_COUNT ==> v[i] == t[i] { UndoTableIdle(v, k + 1, PATCH_COUNT, now.mem); }
  }

  /** The run ends at the first unnamed entry, or at the end. */
  lemma ProgressEnds(t: seq<Entry>, u: seq<Entry>, mode: Mode, k: nat, before: Status, now: Status,
                     grants: nat -> bool)
    requires FreshTable(t) && |t| == |u| && k <= PATCH_COUNT && before.calls >= 0
    requires Progress(t, u, mode, k, before, now, grants)
    requires forall i :: k <= i < PATCH_COUNT ==> u[i] == t[i]
    requires (k == PATCH_COUNT || !t[k].named) && forall i :: 0 <= i < k ==> t[i].named
    ensures Finished(t, u, mode, true, before, now, grants)
  {
    hide Agree, UndoTable, Spaced, TableStands, Stage, Trial, Zeroed, Shown, Exposed, Unexposed;
    UndoTableIdle(u, k, PATCH_COUNT, now.mem);
    StageEnds(t, u, mode, k, before, now, grants);
  }

  lemma UnexposedBefore(t: seq<Entry>, mode: Mode, k: nat)
    requires k < |t|
    ensures Unexposed(t, mode, k + 1) ==> Unexposed(t, mode, k)
  {
  }

  lemma NothingUndone(p: PatchData, m: Memory)
    ensures p.modeStore == Unpatched || p.saved == [] ==> Undo(p, m) == m
  {
  }

  lemma UnnamedIdle(t: seq<Entry>)
    requires FreshTable(t)
    ensures AllNamed(t) || exists k: nat :: IdleFrom(t, k)
  {
    if k :| 0 <= k < PATCH_COUNT && !t[k].named { assert IdleFrom(t, k); }
  }

  /** The first effective site shows in memory. */
  ghost predicate FirstShown(t: seq<Entry>, mode: Mode, before: Memory, after: Memory)
    requires |t| >= PATCH_COUNT
  {
    var first := FirstEffective(t, mode, 0);
    first < PATCH_COUNT && LiveSite(t[first], 0) &&
    SiteMarked(before, after, t[first].patches[0], TargetOf(t[first], mode))
  }

  lemma ShownFirst(t: seq<Entry>, u: seq<Entry>, mode: Mode, before: Status, now: Status, grants: nat -> bool)
    requires |t| == |u| >= PATCH_COUNT && before.calls >= 0
    requires Trial(t, mode, grants, before.calls) && Shown(t, u, mode, before, now)
    ensures FirstShown(t, mode, before.mem, now.mem) && now.slots == before.slots
    ensures exists i :: 0 <= i < PATCH_COUNT && Retained(u[i])
    ensures forall n: nat :: n >= now.calls ==> !grants(n)
  {
    hide SiteMarked, LiveTotal;
  }
}
