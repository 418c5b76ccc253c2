/** Enumeration of environment variables: a block of `name=value` strings, each ended by a NUL and the whole by another,
    walked by feeding back the variable returned last. */
module EnvEnum {
  import opened Wrappers

  type Env = nat -> char

  const NUL := '\0'

  // ---------------------------------------------------------------- entries

  /** The first '=' from `i` on, or the end. */
  function EqFrom(s: string, i: nat): (r: nat)
    requires i <= |s|
    ensures i <= r <= |s|
    ensures r < |s| ==> s[r] == '='
    ensures forall q :: i <= q < r ==> s[q] != '='
    decreases |s| - i
  {
    if i == |s| || s[i] == '=' then i else EqFrom(s, i + 1)
  }

  /** The part before the first '='; all of a bare name. */
  function NameOf(s: string): string {
    s[..EqFrom(s, 0)]
  }

  predicate Clean(s: string) {
    forall i :: 0 <= i < |s| ==> s[i] != NUL
  }

  /** An entry is not empty; without '=' it is bare. */
  predicate Plain(e: string) {
    Clean(e) && e != ""
  }

  predicate Bare(e: string) {
    EqFrom(e, 0) == |e|
  }

  predicate WellFormed(e: string) {
    Clean(e) && !Bare(e)
  }

  ghost predicate AllPlain(es: seq<string>) {
    forall k :: 0 <= k < |es| ==> Plain(es[k])
  }

  ghost predicate AllWellFormed(es: seq<string>) {
    forall k :: 0 <= k < |es| ==> WellFormed(es[k])
  }

  function Offset(es: seq<string>, k: nat): nat
    requires k <= |es|
  {
    if k == 0 then 0 else Offset(es, k - 1) + |es[k - 1]| + 1
  }

  ghost predicate EntryAt(env: Env, p: nat, e: string) {
    (forall i :: 0 <= i < |e| ==> env(p + i) == e[i]) && env(p + |e|) == NUL
  }

  ghost predicate HoldsEntry(env: Env, es: seq<string>, k: nat)
    requires k < |es|
  {
    EntryAt(env, Offset(es, k), es[k])
  }

  ghost predicate HoldsBlock(env: Env, es: seq<string>) {
    (forall k :: 0 <= k < |es| ==> HoldsEntry(env, es, k)) && env(Offset(es, |es|)) == NUL
  }

  lemma {:induction false} OffsetMonotone(es: seq<string>, j: nat, k: nat)
    requires j <= k <= |es|
    ensures Offset(es, j) <= Offset(es, k)
  {
    if j < k { OffsetMonotone(es, j, k - 1); }
  }

  ghost predicate SameBelow(env: Env, env': Env, n: nat) {
    forall i: nat :: i < n ==> env(i) == env'(i)
  }

  lemma {:induction false} EntrySame(env: Env, env': Env, p: nat, e: string, n: nat)
    requires EntryAt(env, p, e) && p + |e| < n && SameBelow(env, env', n)
    ensures EntryAt(env', p, e)
  {
    forall i | 0 <= i < |e| ensures env'(p + i) == e[i] {
      assert env(p + i) == e[i];
    }
  }

  lemma {:induction false} EntryKept(env: Env, env': Env, es: seq<string>, k: nat, n: nat)
    requires k < |es| && n == Offset(es, |es|) + 1 && HoldsEntry(env, es, k) && SameBelow(env, env', n)
    ensures HoldsEntry(env', es, k)
  {
    OffsetMonotone(es, k + 1, |es|);
    EntrySame(env, env', Offset(es, k), es[k], n);
  }

  lemma {:induction false} BlockSame(env: Env, env': Env, es: seq<string>, n: nat)
    requires HoldsBlock(env, es) && n == Offset(es, |es|) + 1 && SameBelow(env, env', n)
    ensures HoldsBlock(env', es)
  {
    forall k | 0 <= k < |es| ensures HoldsEntry(env', es, k) {
      EntryKept(env, env', es, k, n);
    }
  }

  lemma {:induction false} BeforeEnd(env: Env, p: nat, e: string, i: nat)
    requires EntryAt(env, p, e) && Clean(e) && i < |e|
    ensures env(p + i) == e[i] != NUL
  {
  }

  lemma {:induction false} EndsByThen(env: Env, p: nat, e: string, f: string)
    requires EntryAt(env, p, e) && EntryAt(env, p, f) && Clean(f)
    ensures |f| <= |e|
  {
    if |e| < |f| {
      BeforeEnd(env, p, f, |e|);
      assert false;
    }
  }

  lemma {:induction false} EntryUnique(env: Env, p: nat, e: string, f: string)
    requires EntryAt(env, p, e) && EntryAt(env, p, f) && Clean(e) && Clean(f)
    ensures e == f
  {
    EndsByThen(env, p, e, f);
    EndsByThen(env, p, f, e);
    forall i | 0 <= i < |e| ensures e[i] == f[i] {
      assert env(p + i) == e[i];
    }
  }

  lemma {:induction false} EntryStarts(env: Env, es: seq<string>, k: nat)
    requires k < |es| && AllPlain(es) && HoldsBlock(env, es)
    ensures env(Offset(es, k)) != NUL
  {
    assert HoldsEntry(env, es, k) && Plain(es[k]);
    assert env(Offset(es, k) + 0) == es[k][0];
  }

  lemma {:induction false} BlocksAgree(env: Env, a: seq<string>, b: seq<string>, k: nat)
    requires AllPlain(a) && AllPlain(b) && HoldsBlock(env, a) && HoldsBlock(env, b) && k <= |a|
    ensures k <= |b| && Offset(a, k) == Offset(b, k) && forall i :: 0 <= i < k ==> a[i] == b[i]
  {
    if k > 0 {
      BlocksAgree(env, a, b, k - 1);
      EntryStarts(env, a, k - 1);
      assert HoldsEntry(env, a, k - 1) && Plain(a[k - 1]);
      assert HoldsEntry(env, b, k - 1) && Plain(b[k - 1]);
      EntryUnique(env, Offset(a, k - 1), a[k - 1], b[k - 1]);
    }
  }

  /** Memory holds at most one block. */
  lemma {:induction false} BlockUnique(env: Env, a: seq<string>, b: seq<string>)
    requires AllPlain(a) && AllPlain(b) && HoldsBlock(env, a) && HoldsBlock(env, b)
    ensures a == b
  {
    BlocksAgree(env, a, b, |a|);
    BlocksAgree(env, b, a, |b|);
  }

  /** What lies beyond the second NUL is of no consequence: the same block is there whatever follows it. */
  lemma {:induction false} BlockEndsAtSecondNul(env: Env, env': Env, es: seq<string>, es': seq<string>)
    requires AllPlain(es) && AllPlain(es') && HoldsBlock(env, es) && HoldsBlock(env', es')
    requires SameBelow(env, env', Offset(es, |es|) + 1)
    ensures es == es'
  {
    BlockSame(env, env', es, Offset(es, |es|) + 1);
    BlockUnique(env', es, es');
  }

  /** The first `k` entries as they lie in memory. */
  function TextOf(es: seq<string>, k: nat): (t: string)
    requires k <= |es|
    ensures |t| == Offset(es, k)
  {
    if k == 0 then "" else TextOf(es, k - 1) + es[k - 1] + [NUL]
  }

  /** Memory that holds the block and nothing else. */
  function EnvOf(es: seq<string>): Env {
    var t := TextOf(es, |es|);
    (i: nat) => if i < |t| then t[i] else NUL
  }

  lemma {:induction false} TextPrefix(es: seq<string>, k: nat, n: nat)
    requires k <= n <= |es|
    ensures TextOf(es, k) <= TextOf(es, n)
  {
    if k < n { TextPrefix(es, k, n - 1); }
  }

  lemma {:induction false} EnvOfHolds(es: seq<string>)
    ensures HoldsBlock(EnvOf(es), es)
  {
    forall k | 0 <= k < |es| ensures HoldsEntry(EnvOf(es), es, k) {
      TextPrefix(es, k + 1, |es|);
    }
  }

  lemma {:induction false} TextSame(es: seq<string>, more: seq<string>, k: nat)
    requires k <= |es| && es <= more
    ensures TextOf(es, k) == TextOf(more, k)
  {
    if k > 0 { TextSame(es, more, k - 1); }
  }

  /** A longer block looks the same up to where the shorter one ends. */
  lemma {:induction false} EnvOfPrefix(es: seq<string>, more: seq<string>)
    requires es <= more
    ensures SameBelow(EnvOf(es), EnvOf(more), Offset(es, |es|))
  {
    TextSame(es, more, |es|);
    TextPrefix(more, |es|, |more|);
  }

  // ---------------------------------------------------------------- one call

  /** The entry has a value, and the name of `s`. */
  predicate Matches(s: string, e: string) {
    !Bare(e) && NameOf(s) == NameOf(e)
  }

  /** `envmatch`: compares `s` with the entry at `i`, up to the '='. */
  method EnvMatch(env: Env, s: string, i: nat, ghost e: string) returns (r: int)
    requires Clean(s) && Plain(e) && EntryAt(env, i, e) && (Bare(e) ==> s != e)
    ensures r >= 0 <==> Matches(s, e)
    ensures r >= 0 ==> r == i + |NameOf(e)| + 1
  {
    ghost var eq := EqFrom(e, 0);
    var p, i2 := 0, i;
    while true
      invariant p <= |s| && p <= eq && i2 == i + p && s[..p] == e[..p]
      decreases eq - p
    {
      var c := if p < |s| then s[p] else NUL;
      i2 := i2 + 1;
      assert env(i2 - 1) == if p < |e| then e[p] else NUL;
      if c != env(i2 - 1) {
        if c == NUL && env(i2 - 1) == '=' {
          assert NameOf(s) == s == s[..p];
          return i2;
        }
        if !Bare(e) { DifferentNames(s, e, p); }
        return -1;
      }
      if c == '=' {
        NoEqBelow(s, e, p);
        assert EqFrom(s, 0) == p;
        return i2;
      }
      p := p + 1;
    }
  }

  lemma {:induction false} NoEqBelow(s: string, e: string, p: nat)
    requires p <= |s| && p <= EqFrom(e, 0) && s[..p] == e[..p]
    ensures p <= EqFrom(s, 0)
  {
    forall q | 0 <= q < p ensures s[q] != '=' {
      assert s[q] == s[..p][q] == e[..p][q] == e[q];
    }
  }

  /** Strings that part at `p`, where neither ends its name exactly as the other does. */
  lemma {:induction false} DifferentNames(s: string, e: string, p: nat)
    requires p <= |s| && p <= EqFrom(e, 0) < |e| && s[..p] == e[..p]
    requires if p < |s| then s[p] != e[p] else e[p] != '='
    ensures NameOf(s) != NameOf(e)
  {
    NoEqBelow(s, e, p);
    if EqFrom(s, 0) == EqFrom(e, 0) {
      assert NameOf(s)[p] == s[p] && NameOf(e)[p] == e[p];
    }
  }

  /** `Entry(k)` is the address of entry `k`; `Unchanged` leaves the caller's own pointer in place. */
  datatype Next = Entry(k: nat) | NoMore | Unchanged

  /** What the scan for `s` gives from entry `k` on. */
  function NextFrom(es: seq<string>, size: nat, s: string, k: nat): (n: Next)
    requires k <= |es|
    ensures n.Entry? ==> k < n.k < |es|
    decreases |es| - k
  {
    if k == |es| || Offset(es, k) + |es[k]| > size then Unchanged
    else if !Matches(s, es[k]) then NextFrom(es, size, s, k + 1)
    else if k + 1 == |es| then NoMore
    else Entry(k + 1)
  }

  function NextOf(es: seq<string>, size: nat, last: Option<string>): (n: Next)
    ensures n.Entry? ==> n.k <= |es|
  {
    match last
    case None => Entry(0)
    case Some(s) => NextFrom(es, size, s, 0)
  }

  datatype Pointer = Address(offset: nat) | Null | Last

  /** What a call returns on the block `es`. */
  function Result(es: seq<string>, size: nat, last: Option<string>): Pointer {
    match NextOf(es, size, last)
    case Entry(k) => Address(Offset(es, k))
    case NoMore => Null
    case Unchanged => Last
  }

  /** The inner loop: the end of the entry at `i`, unless the scan leaves the environment first. */
  method EntryEnd(env: Env, i: nat, size: nat, ghost e: string) returns (over: bool, n: nat)
    requires Plain(e) && EntryAt(env, i, e)
    ensures over <==> i + |e| > size
    ensures !over ==> n == i + |e|
  {
    assert forall q :: 0 <= q < |e| ==> env(i + q) == e[q];
    n := i;
    while env(n) != NUL
      invariant i <= n <= i + |e| && (n > i ==> n <= size)
      invariant n < i + |e| ==> env(i + (n - i)) == e[n - i]
      decreases i + |e| - n
    {
      if n >= size {
        return true, n;
      }
      n := n + 1;
    }
    over := false;
  }

  /** `API_env_enum` on the block `es`, where `size` is CONFIG_ENV_SIZE. */
  method EnumEnv(env: Env, size: nat, last: Option<string>, ghost es: seq<string>) returns (next: Pointer)
    requires AllPlain(es) && HoldsBlock(env, es)
    requires last.Some? ==> Clean(last.value) && forall k :: 0 <= k < |es| && Bare(es[k]) ==> last.value != es[k]
    ensures next == Result(es, size, last)
  {
    if last.None? {
      return Address(0);
    }
    var s := last.value;
    var i := 0;
    ghost var k := 0;
    while env(i) != NUL
      invariant k <= |es| && i == Offset(es, k)
      invariant NextFrom(es, size, s, k) == NextFrom(es, size, s, 0)
      decreases |es| - k
    {
      ghost var e := es[k];
      assert HoldsEntry(env, es, k) && Plain(e);
      var over, n := EntryEnd(env, i, size, e);
      if over {
        return Last;
      }
      var m := EnvMatch(env, s, i, e);
      if m < 0 {
        i, k := n + 1, k + 1;
        continue;
      }
      i := n + 1;
      if k + 1 < |es| {
        EntryStarts(env, es, k + 1);
      }
      if env(i) == NUL {
        return Null;
      }
      return Address(i);
    }
    if k < |es| {
      EntryStarts(env, es, k);
    }
    return Last;
  }

  // ---------------------------------------------------------------- what one call finds

  /** The scan gets to the end of entry `k`. */
  predicate Reached(es: seq<string>, size: nat, k: nat)
    requires k < |es|
  {
    Offset(es, k) + |es[k]| <= size
  }

  /** No entry before `k` matches `s`. */
  ghost predicate NoneBefore(es: seq<string>, s: string, k: nat)
    requires k <= |es|
  {
    forall i :: 0 <= i < k ==> !Matches(s, es[i])
  }

  /** The first `k` entries end within the size. */
  ghost predicate ReachedBefore(es: seq<string>, size: nat, k: nat)
    requires k <= |es|
  {
    forall i :: 0 <= i < k ==> Reached(es, size, i)
  }

  /** Entry `k` is the first to match `s`, and it and all before it end within the size. */
  ghost predicate FoundAt(es: seq<string>, size: nat, s: string, k: nat)
    requires k < |es|
  {
    Matches(s, es[k]) && NoneBefore(es, s, k) && ReachedBefore(es, size, k + 1)
  }

  /** The scan is cut off at entry `k`, which ends beyond the size, with no match before it. */
  ghost predicate CutOffAt(es: seq<string>, size: nat, s: string, k: nat)
    requires k < |es|
  {
    !Reached(es, size, k) && NoneBefore(es, s, k)
  }

  /** Where a scan ended. */
  ghost predicate EndedAt(es: seq<string>, size: nat, s: string, q: nat)
    requires q <= |es|
  {
    if q == |es| then NoneBefore(es, s, q) && ReachedBefore(es, size, q)
    else FoundAt(es, size, s, q) || CutOffAt(es, size, s, q)
  }

  /** A scan finds a match, is cut off, or gets to the end of the block without a match. */
  lemma {:induction false} ScanFrom(es: seq<string>, size: nat, s: string, k: nat) returns (q: nat)
    requires k <= |es| && NoneBefore(es, s, k) && ReachedBefore(es, size, k)
    ensures k <= q <= |es| && EndedAt(es, size, s, q)
    ensures NextFrom(es, size, s, k) ==
            if q == |es| || !Reached(es, size, q) then Unchanged else if q + 1 == |es| then NoMore else Entry(q + 1)
    decreases |es| - k
  {
    if k == |es| || !Reached(es, size, k) || Matches(s, es[k]) {
      q := k;
    } else {
      q := ScanFrom(es, size, s, k + 1);
    }
  }

  lemma {:induction false} FoundOnce(es: seq<string>, size: nat, s: string, q: nat, k: nat)
    requires q <= |es| && k < |es| && EndedAt(es, size, s, q) && FoundAt(es, size, s, k)
    ensures q == k && Reached(es, size, q)
  {
  }

  lemma {:induction false} CutOffOnce(es: seq<string>, size: nat, s: string, q: nat, k: nat)
    requires q <= |es| && k < |es| && EndedAt(es, size, s, q) && CutOffAt(es, size, s, k)
    ensures q < |es| && !Reached(es, size, q)
  {
  }

  /** The caller's pointer is left in place exactly when the scan is cut off or nothing matches; NULL is given exactly
      when the last entry is found; and an address exactly when it is that of the entry after the one found. */
  lemma {:induction false} ResultExactly(es: seq<string>, size: nat, s: string, a: nat)
    ensures Result(es, size, None) == Address(0)
    ensures Result(es, size, Some(s)) == Last <==>
            NoneBefore(es, s, |es|) || exists k :: 0 <= k < |es| && CutOffAt(es, size, s, k)
    ensures Result(es, size, Some(s)) == Null <==> es != [] && FoundAt(es, size, s, |es| - 1)
    ensures Result(es, size, Some(s)) == Address(a) <==>
            exists k :: 0 <= k < |es| - 1 && FoundAt(es, size, s, k) && a == Offset(es, k + 1)
  {
    var q := ScanFrom(es, size, s, 0);
    forall k | 0 <= k < |es| && FoundAt(es, size, s, k) ensures q == k && Reached(es, size, q) {
      FoundOnce(es, size, s, q, k);
    }
    forall k | 0 <= k < |es| && CutOffAt(es, size, s, k) ensures q < |es| && !Reached(es, size, q) {
      CutOffOnce(es, size, s, q, k);
    }
  }

  // ---------------------------------------------------------------- whole walks

  /** No entry before `k` has its name. */
  ghost predicate Novel(es: seq<string>, k: nat)
    requires k < |es|
  {
    forall i :: 0 <= i < k ==> NameOf(es[i]) != NameOf(es[k])
  }

  /** Entry `k` can be found by its name. */
  ghost predicate Good(es: seq<string>, size: nat, k: nat)
    requires k < |es|
  {
    Reached(es, size, k) && Novel(es, k)
  }

  ghost predicate AllGood(es: seq<string>, size: nat, n: nat)
    requires n <= |es|
  {
    forall k :: 0 <= k < n ==> Good(es, size, k)
  }

  /** The string at the address of entry `k`; at the end of the block, the empty string. */
  function StringAt(es: seq<string>, k: nat): string {
    if k < |es| then es[k] else ""
  }

  /** Where the walk stands after `n + 1` calls, each fed the string the one before returned; None is NULL. */
  function Visit(es: seq<string>, size: nat, n: nat): Option<nat> {
    if n == 0 then Some(0)
    else match Visit(es, size, n - 1)
      case None => None
      case Some(k) =>
        match NextOf(es, size, Some(StringAt(es, k)))
        case Entry(next) => Some(next)
        case NoMore => None
        case Unchanged => Some(k)
  }

  /** The scan passes over entries it gets to the end of that have another name. */
  lemma {:induction false} ScanSkips(es: seq<string>, size: nat, s: string, i: nat, k: nat)
    requires i <= k <= |es|
    requires forall q :: i <= q < k ==> Reached(es, size, q) && !Matches(s, es[q])
    ensures NextFrom(es, size, s, i) == NextFrom(es, size, s, k)
    decreases k - i
  {
    if i < k { ScanSkips(es, size, s, i + 1, k); }
  }

  /** From a good entry with only good ones before it, the walk goes to the next. */
  lemma {:induction false} NextOfGood(es: seq<string>, size: nat, s: string, k: nat)
    requires k < |es| && AllGood(es, size, k + 1) && Matches(s, es[k])
    ensures NextFrom(es, size, s, 0) == if k + 1 == |es| then NoMore else Entry(k + 1)
  {
    assert Good(es, size, k);
    forall q | 0 <= q < k ensures Reached(es, size, q) {
      assert Good(es, size, q);
    }
    ScanSkips(es, size, s, 0, k);
  }

  /** A walk over a non-empty block of entries that all can be found visits each exactly once, in order, then gives
      NULL. */
  lemma {:induction false} WalkVisitsAll(es: seq<string>, size: nat, n: nat)
    requires es != [] && AllWellFormed(es) && AllGood(es, size, |es|) && n <= |es|
    ensures Visit(es, size, n) == if n < |es| then Some(n) else None
  {
    if n > 0 {
      WalkVisitsAll(es, size, n - 1);
      NextOfGood(es, size, es[n - 1], n - 1);
    }
  }

  /** From the first entry that cannot be found, the walk goes back or stays. */
  lemma {:induction false} NextOfBad(es: seq<string>, size: nat, b: nat)
    requires b < |es| && AllWellFormed(es) && AllGood(es, size, b) && !Good(es, size, b)
    ensures match NextFrom(es, size, es[b], 0)
            case Entry(k) => k <= b
            case NoMore => false
            case Unchanged => true
  {
    forall q | 0 <= q < b ensures Reached(es, size, q) {
      assert Good(es, size, q);
    }
    if Novel(es, b) {
      ScanSkips(es, size, es[b], 0, b);
    } else {
      var i := FirstNamed(es, NameOf(es[b]), b);
      ScanSkips(es, size, es[b], 0, i);
    }
  }

  lemma {:induction false} FirstNamed(es: seq<string>, name: string, n: nat) returns (i: nat)
    requires n <= |es| && exists q :: 0 <= q < n && NameOf(es[q]) == name
    ensures i < n && NameOf(es[i]) == name && forall q :: 0 <= q < i ==> NameOf(es[q]) != name
  {
    if exists q :: 0 <= q < n - 1 && NameOf(es[q]) == name {
      i := FirstNamed(es, name, n - 1);
    } else {
      i := n - 1;
    }
  }

  /** With a first entry that cannot be found, the walk never gets past it. */
  lemma {:induction false} WalkIsTrapped(es: seq<string>, size: nat, b: nat, n: nat)
    requires b < |es| && AllWellFormed(es) && AllGood(es, size, b) && !Good(es, size, b)
    ensures Visit(es, size, n).Some? && Visit(es, size, n).value <= b
  {
    if n > 0 {
      WalkIsTrapped(es, size, b, n - 1);
      var k := Visit(es, size, n - 1).value;
      if k < b {
        NextOfGood(es, size, es[k], k);
      } else {
        NextOfBad(es, size, b);
      }
    }
  }

  lemma {:induction false} FirstBad(es: seq<string>, size: nat, n: nat) returns (b: nat)
    requires n <= |es| && !AllGood(es, size, n)
    ensures b < n && AllGood(es, size, b) && !Good(es, size, b)
  {
    if !AllGood(es, size, n - 1) {
      b := FirstBad(es, size, n - 1);
    } else {
      b := n - 1;
    }
  }

  lemma {:induction false} EmptyWalk(size: nat, n: nat)
    ensures Visit([], size, n) == Some(0)
  {
    if n > 0 { EmptyWalk(size, n - 1); }
  }

  /** A walk ever gives NULL exactly when the block is not empty, its names are distinct, and every entry ends within
      the environment's size. */
  lemma {:induction false} WalkEndsExactly(es: seq<string>, size: nat)
    requires AllWellFormed(es)
    ensures (exists n :: Visit(es, size, n) == None) <==> es != [] && AllGood(es, size, |es|)
  {
    if es == [] {
      forall n: nat ensures Visit(es, size, n) != None {
        EmptyWalk(size, n);
      }
    } else if AllGood(es, size, |es|) {
      WalkVisitsAll(es, size, |es|);
    } else {
      var b := FirstBad(es, size, |es|);
      forall n: nat ensures Visit(es, size, n) != None {
        WalkIsTrapped(es, size, b, n);
      }
    }
  }

  lemma {:induction false} NameOfName(s: string)
    ensures NameOf(NameOf(s)) == NameOf(s)
  {
  }

  /** Feeding back the bare name does as well as the whole entry. */
  lemma {:induction false} NameSuffices(es: seq<string>, size: nat, s: string, k: nat)
    requires k <= |es|
    ensures NextFrom(es, size, NameOf(s), k) == NextFrom(es, size, s, k)
    decreases |es| - k
  {
    NameOfName(s);
    if k < |es| { NameSuffices(es, size, s, k + 1); }
  }

  // ---------------------------------------------------------------- reads beyond the environment

  /** No call on the block `es` depends on a byte at or beyond `size`, whatever block another environment with the same
      bytes below holds. */
  ghost predicate DecidedBelow(es: seq<string>, size: nat) {
    forall env, env', es', last :: SameCall(env, es, env', es', size) ==>
      Result(es, size, last) == Result(es', size, last)
  }

  ghost predicate SameCall(env: Env, es: seq<string>, env': Env, es': seq<string>, size: nat) {
    HoldsBlock(env, es) && HoldsBlock(env', es') && AllWellFormed(es') && SameBelow(env, env', size)
  }

  /** A block that ends below `size` decides every result. */
  lemma {:induction false} InBounds(es: seq<string>, size: nat)
    requires AllWellFormed(es) && Offset(es, |es|) < size
    ensures DecidedBelow(es, size)
  {
    forall env, env', es', last | SameCall(env, es, env', es', size)
      ensures Result(es, size, last) == Result(es', size, last)
    {
      BlockEndsAtSecondNul(env, env', es, es');
    }
  }

  /** Whether the entry before the end of the block is the last one is decided by what is found there. */
  lemma {:induction false} OutOfBounds(es: seq<string>, more: seq<string>, size: nat, last: string)
    requires es < more && AllWellFormed(more) && AllGood(es, size, |es|) && Offset(es, |es|) >= size
    requires es != [] && last == es[|es| - 1]
    ensures SameCall(EnvOf(es), es, EnvOf(more), more, size)
    ensures Result(es, size, Some(last)) == Null && Result(more, size, Some(last)) == Address(Offset(es, |es|))
  {
    EnvOfHolds(es);
    EnvOfHolds(more);
    EnvOfPrefix(es, more);
    LastOrNot(es, more, size, last);
  }

  lemma {:induction false} LastOrNot(es: seq<string>, more: seq<string>, size: nat, last: string)
    requires es < more && AllWellFormed(more) && AllGood(es, size, |es|)
    requires es != [] && last == es[|es| - 1]
    ensures Result(es, size, Some(last)) == Null && Result(more, size, Some(last)) == Address(Offset(es, |es|))
  {
    var n := |es|;
    assert WellFormed(more[n - 1]);
    NextOfGood(es, size, last, n - 1);
    GoodOfPrefix(es, more, size);
    NextOfGood(more, size, last, n - 1);
    OffsetOfPrefix(es, more, n);
  }

  lemma {:induction false} OffsetOfPrefix(es: seq<string>, more: seq<string>, k: nat)
    requires es <= more && k <= |es|
    ensures Offset(es, k) == Offset(more, k)
  {
    if k > 0 { OffsetOfPrefix(es, more, k - 1); }
  }

  lemma {:induction false} GoodOfPrefix(es: seq<string>, more: seq<string>, size: nat)
    requires es <= more && AllGood(es, size, |es|)
    ensures AllGood(more, size, |es|)
  {
    forall k | 0 <= k < |es| ensures Good(more, size, k) {
      assert Good(es, size, k);
      OffsetOfPrefix(es, more, k);
    }
  }

  /** Of the blocks whose walk ends, exactly those that end below `size`, with both NULs, are walked without depending
      on what lies there. */
  lemma {:induction false} DecidedBelowExactly(es: seq<string>, size: nat)
    requires es != [] && AllWellFormed(es) && AllGood(es, size, |es|)
    ensures DecidedBelow(es, size) <==> Offset(es, |es|) < size
  {
    if Offset(es, |es|) < size {
      InBounds(es, size);
    } else {
      OutOfBounds(es, es + es, size, es[|es| - 1]);
    }
  }

  /** An entry of three characters in an environment of size 3: whether it is the last is decided by the byte at 4. */
  lemma {:induction false} ThreeBytes(e: string)
    requires e == "a=b"
    ensures AllGood([e], 3, 1)
    ensures SameBelow(EnvOf([e]), EnvOf([e, e]), 4)
    ensures Result([e], 3, Some(e)) == Null && Result([e, e], 3, Some(e)) == Address(4)
  {
    assert EqFrom(e, 0) == 1;
    assert Offset([e], 1) == 4;
    assert Good([e], 3, 0);
    OutOfBounds([e], [e, e], 3, e);
    EnvOfPrefix([e], [e, e]);
  }

  // ---------------------------------------------------------------- the consumer

  /** The consumer's copy of the name at `p`. */
  method CopyName(env: Env, p: nat, ghost e: string) returns (name: string)
    requires WellFormed(e) && EntryAt(env, p, e)
    ensures name == NameOf(e)
  {
    assert forall q :: 0 <= q < |e| ==> env(p + q) == e[q];
    name := "";
    while env(p + |name|) != '=' && env(p + |name|) != NUL
      invariant |name| <= EqFrom(e, 0) && name == e[..|name|]
      invariant env(p + |name|) == e[|name|]
      decreases EqFrom(e, 0) - |name|
    {
      name := name + [env(p + |name|)];
    }
  }

  /** The consumer's loop: each call is given the name the one before returned. */
  method WalkEnv(env: Env, size: nat, ghost es: seq<string>) returns (names: seq<string>)
    requires AllWellFormed(es) && HoldsBlock(env, es) && es != [] && AllGood(es, size, |es|)
    ensures |names| == |es| && forall k :: 0 <= k < |es| ==> names[k] == NameOf(es[k])
  {
    names := [];
    var p := EnumEnv(env, size, None, es);
    while p.Address?
      invariant |names| <= |es| && (forall k :: 0 <= k < |names| ==> names[k] == NameOf(es[k]))
      invariant p == if |names| < |es| then Address(Offset(es, |names|)) else Null
      decreases |es| - |names|
    {
      ghost var k := |names|;
      assert HoldsEntry(env, es, k) && WellFormed(es[k]);
      var name := CopyName(env, p.offset, es[k]);
      names := names + [name];
      NameOfName(es[k]);
      NextOfGood(es, size, name, k);
      p := EnumEnv(env, size, Some(name), es);
    }
  }
}
