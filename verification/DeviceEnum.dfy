/** Device enumeration: the flags kept for each storage group, the cookie the caller feeds back, and
    what a whole run of calls returns. */
module DeviceEnum {

  /** A device descriptor's address; 0 is NULL. */
  type Cookie = nat

  const NULL: Cookie := 0

  /** `dev(g, i)` is `get_dev` of group `g` at index `i`; `net` is the current ethernet device. */
  datatype Table = Table(groups: nat, maxDev: nat -> nat, dev: (nat, nat) -> Cookie, active: Cookie -> bool,
                         net: Cookie)

  /** Descriptors are distinct objects. */
  ghost predicate Injective(t: Table) {
    && (forall g: nat, i: nat, g': nat, i': nat ::
          t.dev(g, i) == t.dev(g', i') && t.dev(g, i) != NULL ==> g == g' && i == i')
    && (forall g: nat, i: nat :: t.net != NULL ==> t.dev(g, i) != t.net)
  }

  // ---------------------------------------------------------------- searching the table

  /** The first index from `i` on that holds `c`; the group's size if there is none. */
  function IndexFrom(t: Table, g: nat, c: Cookie, i: nat): (r: nat)
    requires i <= t.maxDev(g)
    ensures i <= r <= t.maxDev(g)
    ensures r < t.maxDev(g) ==> t.dev(g, r) == c
    ensures forall q :: i <= q < r ==> t.dev(g, q) != c
    decreases t.maxDev(g) - i
  {
    if i == t.maxDev(g) || t.dev(g, i) == c then i else IndexFrom(t, g, c, i + 1)
  }

  function IndexOf(t: Table, g: nat, c: Cookie): nat {
    IndexFrom(t, g, c, 0)
  }

  predicate InGroup(t: Table, g: nat, c: Cookie) {
    IndexOf(t, g, c) < t.maxDev(g)
  }

  /** The first group from `g` on that holds `c`; the number of groups if there is none. */
  function GroupFrom(t: Table, c: Cookie, g: nat): (r: nat)
    requires g <= t.groups
    ensures g <= r <= t.groups
    ensures r < t.groups ==> InGroup(t, r, c)
    ensures forall q :: g <= q < r ==> !InGroup(t, q, c)
    decreases t.groups - g
  {
    if g == t.groups || InGroup(t, g, c) then g else GroupFrom(t, c, g + 1)
  }

  function GroupOf(t: Table, c: Cookie): nat {
    GroupFrom(t, c, 0)
  }

  // ---------------------------------------------------------------- one group

  datatype Flags = Flags(started: bool, ended: bool)

  datatype Got = Got(found: bool, more: bool, cookie: Cookie)

  /** `dev_stor_get`: the first device of a group, or the one after `c`. */
  function Get(t: Table, g: nat, first: bool, c: Cookie): Got {
    if first then
      var d := t.dev(g, 0);
      Got(d != NULL && t.active(d), false, d)
    else
      var i := IndexOf(t, g, c) + 1;
      var d := if i < t.maxDev(g) then t.dev(g, i) else NULL;
      Got(d != NULL && t.active(d), d != NULL && i + 1 < t.maxDev(g), d)
  }

  datatype GroupStep = GroupStep(found: bool, cookie: Cookie, flags: Flags)

  /** `dev_enum_stor` */
  function EnumGroup(t: Table, g: nat, fl: Flags, c: Cookie): GroupStep {
    if c == NULL then
      var r := Get(t, g, true, c);
      GroupStep(r.found, r.cookie, Flags(true, !r.more))
    else if fl.ended then
      GroupStep(false, c, fl)
    else if GroupOf(t, c) == g then
      var r := Get(t, g, false, c);
      GroupStep(r.found, r.cookie, Flags(fl.started, !r.more))
    else if !fl.started then
      var r := Get(t, g, true, c);
      GroupStep(r.found, r.cookie, Flags(true, !r.more))
    else
      GroupStep(false, c, Flags(true, true))
  }

  // ---------------------------------------------------------------- one call

  datatype EnumState = EnumState(flags: seq<Flags>, cookie: Cookie)

  datatype Scan = Scan(found: bool, s: EnumState)

  /** `dev_enum_storage`, from group `g` on. */
  function EnumFrom(t: Table, g: nat, s: EnumState): (r: Scan)
    requires g <= t.groups == |s.flags|
    ensures |r.s.flags| == t.groups
    decreases t.groups - g
  {
    if g == t.groups then Scan(false, s)
    else
      var r := EnumGroup(t, g, s.flags[g], s.cookie);
      var s' := EnumState(s.flags[g := r.flags], r.cookie);
      if r.found then Scan(true, s') else EnumFrom(t, g + 1, s')
  }

  function Untouched(n: nat): (fl: seq<Flags>)
    ensures |fl| == n
  {
    seq(n, _ => Flags(false, false))
  }

  /** `API_dev_enum` */
  function Enum(t: Table, s: EnumState): (r: EnumState)
    requires |s.flags| == t.groups
    ensures |r.flags| == t.groups
  {
    if s.cookie == NULL && t.net != NULL then
      EnumState(Untouched(t.groups), t.net)
    else
      var r := EnumFrom(t, 0, if s.cookie == NULL then EnumState(Untouched(t.groups), NULL) else s);
      if r.found then r.s else EnumState(r.s.flags, NULL)
  }

  /** The state after `k` calls, each fed the cookie the one before returned. */
  function After(t: Table, s: EnumState, k: nat): (r: EnumState)
    requires |s.flags| == t.groups
    ensures |r.flags| == t.groups
  {
    if k == 0 then s else Enum(t, After(t, s, k - 1))
  }

  // ---------------------------------------------------------------- honest runs

  /** Group `g` has an active first device. */
  predicate Present(t: Table, g: nat) {
    t.dev(g, 0) != NULL && t.active(t.dev(g, 0))
  }

  /** The active first devices of the groups from `g` on. */
  function Firsts(t: Table, g: nat): (cs: seq<Cookie>)
    requires g <= t.groups
    ensures |cs| <= t.groups - g
    decreases t.groups - g
  {
    if g == t.groups then [] else (if Present(t, g) then [t.dev(g, 0)] else []) + Firsts(t, g + 1)
  }

  /** What a run returns before it returns NULL. */
  function Expected(t: Table): seq<Cookie> {
    (if t.net != NULL then [t.net] else []) + Firsts(t, 0)
  }

  /** Groups below `f` are done with, groups from `f` on untouched. */
  ghost predicate Frontier(t: Table, fl: seq<Flags>, f: nat) {
    && f <= t.groups == |fl|
    && forall g :: 0 <= g < t.groups ==> fl[g] == Flags(g < f, g < f)
  }

  /** The cookie belongs to no group from `f` on, though it may be NULL or an inactive device. */
  ghost predicate Foreign(t: Table, c: Cookie, f: nat) {
    c == NULL || GroupOf(t, c) < f || GroupOf(t, c) == t.groups
  }

  lemma {:induction false} FirstIsForeign(t: Table, g: nat)
    requires Injective(t) && g < t.groups
    ensures Foreign(t, t.dev(g, 0), g + 1)
  {
    var c := t.dev(g, 0);
    if c != NULL && g < GroupOf(t, c) < t.groups {
      assert false;
    }
  }

  /** Between two calls of a run: groups below `f` are done with and groups from `f` on untouched, the
      cookie is the net device or the first device of group `f - 1`, and `rest` is still to come before NULL. */
  ghost predicate HonestAt(t: Table, s: EnumState, rest: seq<Cookie>, f: nat)
    requires f <= t.groups
  {
    && Frontier(t, s.flags, f) && rest == Firsts(t, f)
    && s.cookie != NULL && s.cookie == if f == 0 then t.net else t.dev(f - 1, 0)
  }

  ghost predicate Honest(t: Table, s: EnumState, rest: seq<Cookie>) {
    exists f :: 0 <= f <= t.groups && HonestAt(t, s, rest, f)
  }

  /** At the frontier a group is taken up, gives its first device if it is active, and is done with; the cookie
      is overwritten in any case. */
  lemma {:induction false} FrontierGroup(t: Table, g: nat, s: EnumState)
    requires g < t.groups && Frontier(t, s.flags, g) && Foreign(t, s.cookie, g)
    ensures EnumGroup(t, g, s.flags[g], s.cookie) == GroupStep(Present(t, g), t.dev(g, 0), Flags(true, true))
  {
  }

  /** Scanning from the frontier finds the first device of the next group that has one. */
  lemma {:induction false} ScanFrontier(t: Table, g: nat, s: EnumState)
    requires Injective(t) && g <= t.groups && Frontier(t, s.flags, g) && Foreign(t, s.cookie, g)
    ensures var r, rest := EnumFrom(t, g, s), Firsts(t, g);
            if rest == [] then !r.found && Frontier(t, r.s.flags, t.groups)
            else r.found && r.s.cookie == rest[0] && Honest(t, r.s, rest[1..])
    decreases t.groups - g
  {
    if g < t.groups {
      FrontierGroup(t, g, s);
      var s' := EnumState(s.flags[g := Flags(true, true)], t.dev(g, 0));
      FirstIsForeign(t, g);
      if Present(t, g) {
        assert HonestAt(t, s', Firsts(t, g + 1), g + 1);
        assert Firsts(t, g)[1..] == Firsts(t, g + 1);
      } else {
        assert Firsts(t, g) == Firsts(t, g + 1);
        ScanFrontier(t, g + 1, s');
      }
    }
  }

  /** Groups that are done with are passed over. */
  lemma {:induction false} SkipEnded(t: Table, g: nat, f: nat, s: EnumState)
    requires g <= f <= t.groups == |s.flags| && s.cookie != NULL
    requires forall q :: g <= q < f ==> s.flags[q].ended
    ensures EnumFrom(t, g, s) == EnumFrom(t, f, s)
    decreases f - g
  {
    if g < f {
      assert s.flags[g := s.flags[g]] == s.flags;
      SkipEnded(t, g + 1, f, s);
    }
  }

  /** One call on a run returns the next device, or NULL after the last. */
  lemma {:induction false} HonestStep(t: Table, s: EnumState, rest: seq<Cookie>)
    requires Injective(t) && |s.flags| == t.groups && Honest(t, s, rest)
    ensures var r := Enum(t, s);
            if rest == [] then r.cookie == NULL && Frontier(t, r.flags, t.groups)
            else r.cookie == rest[0] && Honest(t, r, rest[1..])
  {
    var f :| 0 <= f <= t.groups && HonestAt(t, s, rest, f);
    if f == 0 { NetIsForeign(t); } else { FirstIsForeign(t, f - 1); }
    SkipEnded(t, 0, f, s);
    ScanFrontier(t, f, s);
  }

  /** The call that starts a run over returns the net device if there is one, else the first storage device; if there
      is neither, all groups are done with. */
  lemma {:induction false} RestartStep(t: Table, s: EnumState)
    requires Injective(t) && |s.flags| == t.groups && s.cookie == NULL
    ensures var r, all := Enum(t, s), Expected(t);
            if all == [] then r.cookie == NULL && Frontier(t, r.flags, t.groups)
            else r.cookie == all[0] && Honest(t, r, all[1..])
  {
    if t.net != NULL {
      assert HonestAt(t, Enum(t, s), Firsts(t, 0), 0);
      assert Expected(t)[1..] == Firsts(t, 0);
    } else {
      assert Expected(t) == Firsts(t, 0);
      ScanFrontier(t, 0, EnumState(Untouched(t.groups), NULL));
    }
  }

  lemma {:induction false} NetIsForeign(t: Table)
    requires Injective(t) && t.net != NULL
    ensures GroupOf(t, t.net) == t.groups
  {
    var g := GroupOf(t, t.net);
    if g < t.groups {
      assert false;
    }
  }

  lemma {:induction false} RunStates(t: Table, s: EnumState, k: nat)
    requires Injective(t) && |s.flags| == t.groups && s.cookie == NULL && 1 <= k <= |Expected(t)|
    ensures After(t, s, k).cookie == Expected(t)[k - 1]
    ensures Honest(t, After(t, s, k), Expected(t)[k..])
  {
    var all := Expected(t);
    if k == 1 {
      assert After(t, s, 0) == s;
      RestartStep(t, s);
    } else {
      RunStates(t, s, k - 1);
      HonestStep(t, After(t, s, k - 1), all[k - 1..]);
      assert all[k - 1..][1..] == all[k..];
    }
  }

  /** A run from a NULL cookie, whatever the flags were, returns the net device if any, then the first
      device of each group that has an active one, in group order, then NULL. */
  lemma {:induction false} RunReturns(t: Table, s: EnumState, k: nat)
    requires Injective(t) && |s.flags| == t.groups && s.cookie == NULL && 1 <= k <= |Expected(t)| + 1
    ensures After(t, s, k).cookie == (Expected(t) + [NULL])[k - 1]
  {
    var n := |Expected(t)|;
    if k <= n {
      RunStates(t, s, k);
    } else if n == 0 {
      assert After(t, s, 0) == s;
      RestartStep(t, s);
    } else {
      RunStates(t, s, n);
      HonestStep(t, After(t, s, n), Expected(t)[n..]);
    }
  }

  lemma {:induction false} ReturnsNext(t: Table, s: EnumState, n: nat)
    requires Injective(t) && |s.flags| == t.groups && s.cookie == NULL && n <= |Expected(t)|
    ensures var c := After(t, s, n + 1).cookie;
            if n < |Expected(t)| then c == Expected(t)[n] && c != NULL else c == NULL
  {
    RunReturns(t, s, n + 1);
    NoRepeats(t);
  }

  // ---------------------------------------------------------------- consequences

  lemma {:induction false} AfterAdd(t: Table, s: EnumState, a: nat, b: nat)
    requires |s.flags| == t.groups
    ensures After(t, s, a + b) == After(t, After(t, s, a), b)
  {
    if b > 0 { AfterAdd(t, s, a, b - 1); }
  }

  /** A run does not depend on what earlier runs left in the flags. */
  lemma {:induction false} RunForgets(t: Table, s: EnumState, s': EnumState, k: nat)
    requires |s.flags| == |s'.flags| == t.groups && s.cookie == s'.cookie == NULL && k >= 1
    ensures After(t, s, k) == After(t, s', k)
  {
    if k == 1 {
      assert After(t, s, 0) == s && After(t, s', 0) == s';
    } else {
      RunForgets(t, s, s', k - 1);
    }
  }

  /** Feeding the final NULL back starts the same run over: the results repeat with a period of at most two
      more than the number of groups. */
  lemma {:induction false} RunsRepeat(t: Table, s: EnumState, k: nat)
    requires Injective(t) && |s.flags| == t.groups && s.cookie == NULL && k >= 1
    ensures |Expected(t)| + 1 <= t.groups + 2
    ensures After(t, s, |Expected(t)| + 1 + k) == After(t, s, k)
  {
    var n := |Expected(t)| + 1;
    RunReturns(t, s, n);
    AfterAdd(t, s, n, k);
    RunForgets(t, After(t, s, n), s, k);
  }

  /** What is returned of storage is some group's active first device, and every such device is returned. */
  lemma {:induction false} InFirsts(t: Table, g: nat, c: Cookie)
    requires g <= t.groups
    ensures c in Firsts(t, g) <==> exists q :: g <= q < t.groups && Present(t, q) && t.dev(q, 0) == c
    decreases t.groups - g
  {
    if g < t.groups {
      InFirsts(t, g + 1, c);
      if exists q :: g <= q < t.groups && Present(t, q) && t.dev(q, 0) == c {
        var q :| g <= q < t.groups && Present(t, q) && t.dev(q, 0) == c;
        assert q == g || q >= g + 1;
      }
    }
  }

  lemma {:induction false} FirstsDistinct(t: Table, g: nat)
    requires Injective(t) && g <= t.groups
    ensures forall i, k :: 0 <= i < k < |Firsts(t, g)| ==> Firsts(t, g)[i] != Firsts(t, g)[k]
    decreases t.groups - g
  {
    if g < t.groups {
      FirstsDistinct(t, g + 1);
      InFirsts(t, g + 1, t.dev(g, 0));
    }
  }

  /** No cookie comes twice in a run, and none is NULL before the end. */
  lemma {:induction false} NoRepeats(t: Table)
    requires Injective(t)
    ensures var all := Expected(t);
            NULL !in all && forall i, k :: 0 <= i < k < |all| ==> all[i] != all[k]
  {
    FirstsDistinct(t, 0);
    InFirsts(t, 0, NULL);
    InFirsts(t, 0, t.net);
  }

  /** All results of all runs: the devices of one run and a NULL, over and over. */
  lemma {:induction false} ReturnsCycle(t: Table, s: EnumState, k: nat)
    requires Injective(t) && |s.flags| == t.groups && s.cookie == NULL && k >= 1
    ensures After(t, s, k).cookie in Expected(t) + [NULL]
  {
    var n := |Expected(t)| + 1;
    if k <= n {
      RunReturns(t, s, k);
    } else {
      RunsRepeat(t, s, k - n);
      ReturnsCycle(t, s, k - n);
    }
  }

  /** A device other than the first of its group is never returned, however often the API is called. */
  lemma {:induction false} NeverTheSecond(t: Table, s: EnumState, g: nat, i: nat, k: nat)
    requires Injective(t) && |s.flags| == t.groups && s.cookie == NULL && k >= 1 && i >= 1 && t.dev(g, i) != NULL
    ensures After(t, s, k).cookie != t.dev(g, i)
  {
    ReturnsCycle(t, s, k);
    InFirsts(t, 0, t.dev(g, i));
  }

  /** Some call returns `c`. */
  ghost predicate Returned(t: Table, s: EnumState, c: Cookie)
    requires |s.flags| == t.groups
  {
    exists k :: k >= 1 && After(t, s, k).cookie == c
  }

  /** The first device of a group, if active, is returned. */
  lemma {:induction false} FirstReturned(t: Table, s: EnumState, g: nat)
    requires Injective(t) && |s.flags| == t.groups && s.cookie == NULL && g < t.groups && Present(t, g)
    ensures Returned(t, s, t.dev(g, 0))
  {
    InFirsts(t, 0, t.dev(g, 0));
    var all := Expected(t);
    assert t.dev(g, 0) in Firsts(t, 0);
    assert t.dev(g, 0) in all;
    var n :| 0 <= n < |all| && all[n] == t.dev(g, 0);
    RunReturns(t, s, n + 1);
  }

  /** Device `i` of group `g` is there to be enumerated. */
  ghost predicate Enumerable(t: Table, g: nat, i: nat) {
    g < t.groups && i < t.maxDev(g) && t.dev(g, i) != NULL && t.active(t.dev(g, i))
  }

  /** Every active storage device is returned by some call exactly when no group has an active device beyond its
      first. */
  lemma {:induction false} CompleteExactly(t: Table, s: EnumState)
    requires Injective(t) && |s.flags| == t.groups && s.cookie == NULL
    ensures (forall g, i :: Enumerable(t, g, i) ==> Returned(t, s, t.dev(g, i)))
       <==> (forall g, i :: Enumerable(t, g, i) ==> i == 0)
  {
    forall g, i | Enumerable(t, g, i) ensures Returned(t, s, t.dev(g, i)) <==> i == 0 {
      if i == 0 {
        FirstReturned(t, s, g);
      } else {
        forall k | k >= 1 ensures After(t, s, k).cookie != t.dev(g, i) {
          NeverTheSecond(t, s, g, i, k);
        }
      }
    }
  }

  /** One group with two active devices, and no net device. */
  function TwoDisks(): Table {
    Table(1, _ => 2, (g, i) => if g == 0 && i < 2 then i + 1 else 0, _ => true, NULL)
  }

  lemma {:induction false} TwoDisksExpected(t: Table)
    requires t == TwoDisks()
    ensures Injective(t) && Enumerable(t, 0, 1) && Expected(t) == [t.dev(0, 0)]
  {
    assert Firsts(t, 1) == [];
    assert Firsts(t, 0) == [t.dev(0, 0)];
  }

  /** Of the two, every other call returns the first; no call returns the second. */
  lemma {:induction false} SecondDeviceMissed(t: Table, s: EnumState, k: nat)
    requires t == TwoDisks() && |s.flags| == 1 && s.cookie == NULL
    ensures Injective(t) && Enumerable(t, 0, 1)
    ensures After(t, s, k).cookie == if k % 2 == 1 then t.dev(0, 0) else NULL
  {
    TwoDisksExpected(t);
    Alternates(t, s, t.dev(0, 0), k);
  }

  lemma {:induction false} Alternates(t: Table, s: EnumState, c: Cookie, k: nat)
    requires Injective(t) && |s.flags| == t.groups && s.cookie == NULL && Expected(t) == [c]
    ensures After(t, s, k).cookie == if k % 2 == 1 then c else NULL
  {
    if 1 <= k <= 2 {
      RunReturns(t, s, k);
    } else if k > 2 {
      RunsRepeat(t, s, k - 2);
      Alternates(t, s, c, k - 2);
    }
  }

  // ---------------------------------------------------------------- progress

  /** The number of groups not taken up yet. */
  function Unstarted(fl: seq<Flags>, n: nat): nat
    requires n <= |fl|
  {
    if n == 0 then 0 else Unstarted(fl, n - 1) + if fl[n - 1].started then 0 else 1
  }

  lemma {:induction false} UnstartedAt(t: Table, fl: seq<Flags>, f: nat, n: nat)
    requires Frontier(t, fl, f) && n <= t.groups
    ensures Unstarted(fl, n) == if n <= f then 0 else n - f
  {
    if n > 0 { UnstartedAt(t, fl, f, n - 1); }
  }

  lemma {:induction false} FirstsShrink(t: Table, g: nat, f: nat)
    requires g <= f <= t.groups
    ensures |Firsts(t, f)| <= |Firsts(t, g)|
    decreases f - g
  {
    if g < f { FirstsShrink(t, g + 1, f); }
  }

  /** With more devices to come, a frontier is further on than with fewer. */
  lemma {:induction false} FurtherOn(t: Table, s: EnumState, rest: seq<Cookie>, s': EnumState, rest': seq<Cookie>)
    requires Honest(t, s, rest) && Honest(t, s', rest') && |rest'| < |rest|
    ensures |s.flags| == |s'.flags| == t.groups && Unstarted(s'.flags, t.groups) < Unstarted(s.flags, t.groups)
  {
    var f :| 0 <= f <= t.groups && HonestAt(t, s, rest, f);
    var f' :| 0 <= f' <= t.groups && HonestAt(t, s', rest', f');
    if f' <= f { FirstsShrink(t, f', f); }
    UnstartedAt(t, s.flags, f, t.groups);
    UnstartedAt(t, s'.flags, f', t.groups);
  }

  /** Every call of a run that returns a storage device leaves fewer groups to take up than there were before it, or
      than there are if it is the first call. */
  lemma {:induction false} StorageTakesUp(t: Table, s: EnumState, k: nat)
    requires Injective(t) && |s.flags| == t.groups && s.cookie == NULL && k < |Expected(t)|
    ensures k > 0 ==> Unstarted(After(t, s, k + 1).flags, t.groups) < Unstarted(After(t, s, k).flags, t.groups)
    ensures t.net == NULL ==> Unstarted(After(t, s, k + 1).flags, t.groups) < t.groups
  {
    RunStates(t, s, k + 1);
    var all := Expected(t);
    if k > 0 {
      RunStates(t, s, k);
      FurtherOn(t, After(t, s, k), all[k..], After(t, s, k + 1), all[k + 1..]);
    }
    if t.net == NULL {
      var r := After(t, s, k + 1);
      var f :| 0 <= f <= t.groups && HonestAt(t, r, all[k + 1..], f);
      UnstartedAt(t, r.flags, f, t.groups);
    }
  }

  // ---------------------------------------------------------------- stepping inside a group

  lemma {:induction false} IndexOfDevice(t: Table, g: nat, i: nat)
    requires Injective(t) && i < t.maxDev(g) && t.dev(g, i) != NULL
    ensures IndexOf(t, g, t.dev(g, i)) == i
  {
  }

  /** The cookies returned by `n` steps inside a group, each from the one before. */
  function Steps(t: Table, g: nat, c: Cookie, n: nat): seq<Got>
    decreases n
  {
    if n == 0 then [] else
      var r := Get(t, g, false, c);
      [r] + Steps(t, g, r.cookie, n - 1)
  }

  /** In a group whose devices are active up to index `m` and missing from there on, stepping from device `i`
      returns the devices after it in order, each with a hint of more if there is room for more, then none. */
  lemma {:induction false} StepsThroughGroup(t: Table, g: nat, m: nat, i: nat, k: nat)
    requires Injective(t) && i < m <= t.maxDev(g)
    requires forall q :: 0 <= q < m ==> t.dev(g, q) != NULL && t.active(t.dev(g, q))
    requires forall q :: m <= q < t.maxDev(g) ==> t.dev(g, q) == NULL
    requires k < m - i
    ensures var s := Steps(t, g, t.dev(g, i), m - i);
            && |s| == m - i
            && s[k] == if i + 1 + k < m then Got(true, i + 2 + k < t.maxDev(g), t.dev(g, i + 1 + k))
                       else Got(false, false, NULL)
    decreases m - i
  {
    IndexOfDevice(t, g, i);
    if i + 1 < m {
      StepsThroughGroup(t, g, m, i + 1, if k > 0 then k - 1 else 0);
    } else {
      assert Steps(t, g, NULL, 0) == [];
    }
  }

  // ---------------------------------------------------------------- calls that no honest run makes

  /** Groups below `g` are done with, and group `g` is not. */
  ghost predicate Amid(t: Table, fl: seq<Flags>, g: nat) {
    g < t.groups == |fl| && !fl[g].ended && forall q :: 0 <= q < g ==> fl[q].ended
  }

  lemma {:induction false} GroupOfDevice(t: Table, g: nat, i: nat)
    requires Injective(t) && g < t.groups && i < t.maxDev(g) && t.dev(g, i) != NULL
    ensures GroupOf(t, t.dev(g, i)) == g && IndexOf(t, g, t.dev(g, i)) == i
  {
    assert InGroup(t, g, t.dev(g, i));
  }

  /** Fed a device of a group that is not done with, a call returns the next device of that group if it is active, and
      the group is done with exactly when there is no room for another. */
  lemma {:induction false} ContinuesGroup(t: Table, s: EnumState, g: nat, i: nat)
    requires Injective(t) && Amid(t, s.flags, g) && s.cookie == t.dev(g, i) != NULL
    requires i < t.maxDev(g) && Enumerable(t, g, i + 1)
    ensures Enum(t, s) == EnumState(s.flags[g := Flags(s.flags[g].started, i + 2 == t.maxDev(g))], t.dev(g, i + 1))
  {
    GroupOfDevice(t, g, i);
    SkipEnded(t, 0, g, s);
  }

  /** Calls that start inside a group with room and active devices go through it, device by device. */
  lemma {:induction false} GroupRun(t: Table, s: EnumState, g: nat, i: nat, k: nat)
    requires Injective(t) && Amid(t, s.flags, g) && s.cookie == t.dev(g, i)
    requires forall q :: i <= q <= i + k ==> Enumerable(t, g, q)
    ensures After(t, s, k).cookie == t.dev(g, i + k)
    ensures k > 0 ==> After(t, s, k).flags == s.flags[g := Flags(s.flags[g].started, i + k + 1 == t.maxDev(g))]
  {
    if k > 0 {
      GroupRun(t, s, g, i, k - 1);
      assert Enumerable(t, g, i + (k - 1)) && Enumerable(t, g, i + (k - 1) + 1);
      ContinuesGroup(t, After(t, s, k - 1), g, i + (k - 1));
    }
  }

  /** A scan of groups not taken up yet gives the first device of the first that has an active one. */
  lemma {:induction false} ScanUntouched(t: Table, g: nat, s: EnumState)
    requires Injective(t) && g <= t.groups == |s.flags| && Foreign(t, s.cookie, g)
    requires forall q :: g <= q < t.groups ==> s.flags[q] == Flags(false, false)
    ensures var r, rest := EnumFrom(t, g, s), Firsts(t, g);
            && (r.found <==> rest != []) && (r.found ==> r.s.cookie == rest[0])
            && forall q :: 0 <= q < g ==> r.s.flags[q] == s.flags[q]
    decreases t.groups - g
  {
    if g < t.groups && !Present(t, g) {
      FirstIsForeign(t, g);
      ScanUntouched(t, g + 1, EnumState(s.flags[g := Flags(true, true)], t.dev(g, 0)));
    }
  }

  /** What the groups from `g` on give when they are taken up: the first active first device, or NULL. */
  function NextFirst(t: Table, g: nat): Cookie
    requires g <= t.groups
  {
    (Firsts(t, g) + [NULL])[0]
  }

  /** Fed a device of a group that is not done with and has no active device next, a call goes on to the groups after
      it; the group is done with unless an inactive device is next and there is room behind it. */
  lemma {:induction false} LeavesGroup(t: Table, s: EnumState, g: nat, i: nat)
    requires Injective(t) && Amid(t, s.flags, g) && s.cookie == t.dev(g, i) != NULL
    requires i < t.maxDev(g) && !Enumerable(t, g, i + 1)
    requires forall q :: g < q < t.groups ==> s.flags[q] == Flags(false, false)
    ensures Enum(t, s).cookie == NextFirst(t, g + 1)
    ensures Enum(t, s).flags[g].ended <==> i + 2 >= t.maxDev(g) || t.dev(g, i + 1) == NULL
  {
    GroupOfDevice(t, g, i);
    SkipEnded(t, 0, g, s);
    var r := EnumGroup(t, g, s.flags[g], s.cookie);
    if r.cookie != NULL { GroupOfDevice(t, g, i + 1); }
    ScanUntouched(t, g + 1, EnumState(s.flags[g := r.flags], r.cookie));
  }

  /** If no device is next at all, the group after it is taken up even if it was done with before. */
  lemma {:induction false} TakesUpAgain(t: Table, s: EnumState, g: nat, i: nat)
    requires Injective(t) && Amid(t, s.flags, g) && s.cookie == t.dev(g, i) != NULL && i < t.maxDev(g)
    requires i + 1 == t.maxDev(g) || t.dev(g, i + 1) == NULL
    requires g + 1 < t.groups && Present(t, g + 1)
    ensures Enum(t, s).cookie == t.dev(g + 1, 0) && Enum(t, s).flags[g + 1] == Flags(true, true)
  {
    GroupOfDevice(t, g, i);
    SkipEnded(t, 0, g, s);
  }

  /** Fed a device of none of the groups still to come while one is under way, a call gives that group up and goes on to
      the groups after it. */
  lemma {:induction false} OutOfOrder(t: Table, s: EnumState, g: nat)
    requires Injective(t) && Amid(t, s.flags, g) && s.flags[g].started && s.cookie != NULL && Foreign(t, s.cookie, g)
    requires forall q :: g < q < t.groups ==> s.flags[q] == Flags(false, false)
    ensures Enum(t, s).cookie == NextFirst(t, g + 1) && Enum(t, s).flags[g] == Flags(true, true)
  {
    SkipEnded(t, 0, g, s);
    ScanUntouched(t, g + 1, EnumState(s.flags[g := Flags(true, true)], s.cookie));
  }
}
