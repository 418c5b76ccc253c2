/** The device API: enumeration and storage reads as the code performs them, in place on the group flags and the
    caller's `device_info`. */
module DeviceApi {
  import opened DeviceEnum

  datatype Kind = NoKind | Net | Stor(group: nat)

  /** What the caller is told about a device beside its kind. */
  datatype Details = Blank | Disk(count: nat, size: nat) | Ether(hwaddr: seq<nat>)

  class DeviceInfo {
    var cookie: Cookie
    var kind: Kind
    var details: Details

    constructor (cookie: Cookie)
      ensures this.cookie == cookie && kind == NoKind && details == Blank
    {
      this.cookie, kind, details := cookie, NoKind, Blank;
    }
  }

  /** The descriptors behind the cookies: `lba` and `blksz` of a disk, `enetaddr` of a network device. */
  datatype Descriptors = Descriptors(lba: Cookie -> nat, blksz: Cookie -> nat, enetaddr: Cookie -> seq<nat>)

  class Api {
    const t: Table
    const ds: Descriptors
    var flags: seq<Flags>

    constructor (t: Table, ds: Descriptors)
      ensures this.t == t && this.ds == ds && flags == Untouched(t.groups)
    {
      this.t, this.ds, flags := t, ds, Untouched(t.groups);
    }

    /** The caller's record tells of the device at its cookie. */
    ghost predicate Describes(di: DeviceInfo)
      reads di
    {
      match di.kind
      case NoKind => false
      case Net => di.cookie == t.net && di.details == Ether(ds.enetaddr(di.cookie))
      case Stor(g) =>
        && (exists i :: t.dev(g, i) == di.cookie)
        && di.details == Disk(ds.lba(di.cookie), ds.blksz(di.cookie))
    }

    method StorGet(g: nat, first: bool, di: DeviceInfo) returns (found: bool, more: bool)
      modifies di
      ensures Got(found, more, di.cookie) == Get(t, g, first, old(di.cookie))
      ensures di.kind == if di.cookie != NULL then Stor(g) else old(di.kind)
      ensures di.details == if found then Disk(ds.lba(di.cookie), ds.blksz(di.cookie)) else old(di.details)
      ensures found ==> Describes(di)
    {
      found, more := false, false;
      if first {
        di.cookie := t.dev(g, 0);
        if di.cookie == NULL {
          return;
        }
        found := true;
      } else {
        var i := 0;
        while i < t.maxDev(g)
          invariant i <= t.maxDev(g) && !found && !more
          invariant di.cookie == old(di.cookie) && di.kind == old(di.kind) && di.details == old(di.details)
          invariant forall q :: 0 <= q < i ==> t.dev(g, q) != di.cookie
        {
          if di.cookie == t.dev(g, i) {
            i := i + 1;
            if i >= t.maxDev(g) {
              di.cookie := NULL;
              break;
            }
            di.cookie := t.dev(g, i);
            if di.cookie == NULL {
              return;
            }
            found := true;
            if i + 1 < t.maxDev(g) {
              more := true;
            }
            break;
          }
          i := i + 1;
        }
      }
      if found {
        di.kind := Stor(g);
        if !t.active(di.cookie) {
          found := false;
        } else {
          di.details := Disk(ds.lba(di.cookie), ds.blksz(di.cookie));
        }
      } else {
        di.cookie := NULL;
      }
    }

    method StorType(c: Cookie) returns (g: nat)
      ensures g == GroupOf(t, c)
    {
      g := 0;
      while g < t.groups
        invariant g <= t.groups && forall q :: 0 <= q < g ==> !InGroup(t, q, c)
      {
        var i := 0;
        while i < t.maxDev(g)
          invariant i <= t.maxDev(g) && forall q :: 0 <= q < i ==> t.dev(g, q) != c
        {
          if c == t.dev(g, i) {
            assert InGroup(t, g, c);
            return;
          }
          i := i + 1;
        }
        g := g + 1;
      }
    }

    method EnumStor(g: nat, di: DeviceInfo) returns (found: bool)
      requires g < |flags|
      modifies this, di
      ensures |flags| == |old(flags)| && flags == old(flags)[g := flags[g]]
      ensures GroupStep(found, di.cookie, flags[g]) == EnumGroup(t, g, old(flags)[g], old(di.cookie))
      ensures found ==> di.kind == Stor(g) && Describes(di)
    {
      var more;
      if di.cookie == NULL {
        found, more := StorGet(g, true, di);
        flags := flags[g := flags[g].(started := true)];
      } else {
        var group := StorType(di.cookie);
        if group == g {
          if flags[g].ended {
            return false;
          }
          found, more := StorGet(g, false, di);
        } else {
          if flags[g].ended {
            return false;
          }
          if !flags[g].started {
            flags := flags[g := flags[g].(started := true)];
            found, more := StorGet(g, true, di);
          } else {
            found, more := false, false;
          }
        }
      }
      flags := flags[g := flags[g].(ended := !more)];
    }

    method EnumReset()
      modifies this
      ensures flags == Untouched(|old(flags)|)
    {
      for i := 0 to |flags|
        invariant |flags| == |old(flags)| && forall g :: 0 <= g < i ==> flags[g] == Flags(false, false)
      {
        flags := flags[i := Flags(false, false)];
      }
    }

    method EnumStorage(di: DeviceInfo) returns (found: bool)
      requires |flags| == t.groups
      modifies this, di
      ensures Scan(found, EnumState(flags, di.cookie)) == EnumFrom(t, 0, EnumState(old(flags), old(di.cookie)))
      ensures found ==> di.kind.Stor? && Describes(di)
    {
      for i := 0 to t.groups
        invariant |flags| == t.groups
        invariant EnumFrom(t, i, EnumState(flags, di.cookie)) == EnumFrom(t, 0, EnumState(old(flags), old(di.cookie)))
      {
        found := EnumStor(i, di);
        if found {
          return;
        }
      }
      found := false;
    }

    method EnumNet(di: DeviceInfo) returns (found: bool)
      modifies di
      ensures di.cookie == t.net && di.kind == Net && found == (t.net != NULL)
      ensures di.details == if found then Ether(ds.enetaddr(t.net)) else old(di.details)
    {
      di.kind, di.cookie := Net, t.net;
      if di.cookie == NULL {
        return false;
      }
      di.details := Ether(ds.enetaddr(di.cookie));
      return true;
    }

    method DevEnum(di: DeviceInfo)
      requires |flags| == t.groups
      modifies this, di
      ensures EnumState(flags, di.cookie) == Enum(t, EnumState(old(flags), old(di.cookie)))
      ensures di.cookie != NULL ==> Describes(di)
    {
      if di.cookie == NULL {
        EnumReset();
        var found := EnumNet(di);
        if found {
          return;
        }
      }
      var found := EnumStorage(di);
      if !found {
        di.cookie := NULL;
      }
    }

    /** The API consumer's loop: enumerates into at most `room` slots, passing each cookie on to the next slot. */
    method EnumerateAll(room: nat) returns (cookies: seq<Cookie>)
      requires Injective(t) && |flags| == t.groups && room > 0
      modifies this
      ensures |flags| == t.groups
      ensures cookies == Expected(t)[..if |Expected(t)| < room then |Expected(t)| else room]
    {
      ghost var s, all := EnumState(flags, NULL), Expected(t);
      var di := new DeviceInfo(NULL);
      cookies := [];
      DevEnum(di);
      assert After(t, s, 0) == s;
      while di.cookie != NULL
        invariant |flags| == t.groups && EnumState(flags, di.cookie) == After(t, s, |cookies| + 1)
        invariant |cookies| < room && cookies <= all
        decreases |all| - |cookies|
      {
        ReturnsNext(t, s, |cookies|);
        cookies := cookies + [di.cookie];
        if |cookies| >= room {
          break;
        }
        di := new DeviceInfo(di.cookie);
        DevEnum(di);
      }
      if di.cookie == NULL {
        ReturnsNext(t, s, |cookies|);
      }
    }

    // -------------------------------------------------------------- reading

    method StorIsValid(g: nat, c: Cookie) returns (valid: bool)
      requires c != NULL
      ensures valid <==> InGroup(t, g, c) && t.active(c)
    {
      for i := 0 to t.maxDev(g)
        invariant forall q :: 0 <= q < i ==> t.dev(g, q) == c ==> !t.active(c)
      {
        if c == t.dev(g, i) {
          if t.active(c) {
            return true;
          }
        }
      }
      return false;
    }

    method OpenStor(c: Cookie) returns (ok: bool)
      requires c != NULL
      ensures ok <==> Readable(t, c)
    {
      var group := StorType(c);
      if group == t.groups {
        return false;
      }
      ok := StorIsValid(group, c);
    }

    /** Only called for a device of some group: the search does not fall through. */
    method StorIndex(c: Cookie) returns (i: nat)
      requires GroupOf(t, c) < t.groups
      ensures i < t.maxDev(GroupOf(t, c)) && t.dev(GroupOf(t, c), i) == c
    {
      var group := StorType(c);
      i := 0;
      while i < t.maxDev(group)
        invariant i <= t.maxDev(group) && forall q :: 0 <= q < i ==> t.dev(group, q) != c
      {
        if c == t.dev(group, i) {
          return;
        }
        i := i + 1;
      }
    }

    /** The index handed to the driver's `block_read`, if it is called at all. */
    method ReadStor(c: Cookie, hasRead: bool) returns (called: bool, index: nat)
      requires c != NULL
      ensures called <==> Readable(t, c) && hasRead
      ensures called ==> index < t.maxDev(GroupOf(t, c)) && t.dev(GroupOf(t, c), index) == c && t.active(c)
    {
      called, index := false, 0;
      var group := StorType(c);
      if group == t.groups {
        return;
      }
      var valid := StorIsValid(group, c);
      if !valid || !hasRead {
        return;
      }
      index := StorIndex(c);
      called := true;
    }
  }

  /** The cookie is an active device of some group. */
  predicate Readable(t: Table, c: Cookie) {
    GroupOf(t, c) < t.groups && t.active(c)
  }

  /** Which cookies can be read does not depend on the order of the search. */
  lemma {:induction false} ReadableExactly(t: Table, c: Cookie)
    requires c != NULL
    ensures Readable(t, c) <==> exists g, i :: Enumerable(t, g, i) && t.dev(g, i) == c
  {
    var g := GroupOf(t, c);
    if Readable(t, c) {
      assert Enumerable(t, g, IndexOf(t, g, c));
    }
    if exists g, i :: Enumerable(t, g, i) && t.dev(g, i) == c {
      var g', i :| Enumerable(t, g', i) && t.dev(g', i) == c;
      assert InGroup(t, g', c);
    }
  }

  /** The storage device a run returns for group `q` can be opened and read exactly when the group has room for a
      device. */
  lemma {:induction false} EnumeratedIsReadable(t: Table, q: nat)
    requires Injective(t) && q < t.groups && Present(t, q)
    ensures t.dev(q, 0) in Expected(t)
    ensures Readable(t, t.dev(q, 0)) <==> t.maxDev(q) > 0
  {
    var c := t.dev(q, 0);
    InFirsts(t, 0, c);
    if t.maxDev(q) > 0 {
      assert InGroup(t, q, c);
    } else if GroupOf(t, c) < t.groups {
      assert false;
    }
  }
}
