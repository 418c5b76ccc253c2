/** Opening and closing a device through one `device_info`: the balance of interface starts and stops. */
module DeviceHandle {
  import opened DeviceEnum
  import opened DeviceApi

  const API_ENODEV := 2
  const API_EBUSY := 4
  const API_EIO := 5

  /** `inits` and `halts` count successful `eth_init` and all `eth_halt` calls. */
  datatype HandleState = HandleState(open: bool, inits: nat, halts: nat)

  /** A call, with the ethernet device current at that moment and the result `eth_init` would have. */
  datatype Call = OpenCall(current: Cookie, initOk: bool) | CloseCall(current: Cookie)

  /** What a call does to a handle for the network device `c`. */
  function NetStep(c: Cookie, h: HandleState, call: Call): HandleState {
    match call
    case OpenCall(current, initOk) =>
      if !h.open && current == c && initOk then h.(open := true, inits := h.inits + 1) else h
    case CloseCall(current) =>
      if h.open && current == c then h.(open := false, halts := h.halts + 1) else h
  }

  function NetRun(c: Cookie, h: HandleState, calls: seq<Call>, n: nat): HandleState
    requires n <= |calls|
  {
    if n == 0 then h else NetStep(c, NetRun(c, h, calls, n - 1), calls[n - 1])
  }

  const CLOSED := HandleState(false, 0, 0)

  /** Over every sequence of calls and changes of the current interface, starts exceed stops by one while the
      handle is open and equal them while it is closed. */
  lemma {:induction false} Balance(c: Cookie, calls: seq<Call>, n: nat)
    requires n <= |calls|
    ensures var h := NetRun(c, CLOSED, calls, n);
            h.inits - h.halts == if h.open then 1 else 0
  {
    if n > 0 { Balance(c, calls, n - 1); }
  }

  /** A handle can be stuck open: if the current interface never comes back to `c`, no sequence of calls closes it. */
  lemma {:induction false} StuckOpen(c: Cookie, h: HandleState, calls: seq<Call>, n: nat)
    requires n <= |calls| && h.open
    requires forall i :: 0 <= i < |calls| ==> calls[i].current != c
    ensures NetRun(c, h, calls, n) == h
  {
    if n > 0 { StuckOpen(c, h, calls, n - 1); }
  }

  class Handle {
    const info: DeviceInfo
    var state: HandleState

    constructor (info: DeviceInfo)
      ensures this.info == info && state == CLOSED
    {
      this.info, state := info, CLOSED;
    }

    /** `API_dev_open`; `stor` is the storage API that checks storage cookies. */
    method Open(stor: Api, current: Cookie, initOk: bool) returns (err: nat)
      modifies this
      ensures old(state).open ==> err == 4
      ensures !old(state).open ==>
                err == if info.cookie == NULL then 2 else match info.kind
                  case NoKind => 2
                  case Stor(_) => if Readable(stor.t, info.cookie) then 0 else 2
                  case Net => if current != info.cookie then 2 else if initOk then 0 else 5
      ensures err != 0 ==> state == old(state)
      ensures err == 0 ==> state == old(state).(open := true, inits := state.inits)
      ensures err == 0 ==> state.inits == old(state).inits + if info.kind.Net? then 1 else 0
      ensures info.kind.Net? && info.cookie != NULL ==>
                state == NetStep(info.cookie, old(state), OpenCall(current, initOk))
    {
      if state.open {
        return API_EBUSY;
      }
      if info.cookie == NULL {
        return API_ENODEV;
      }
      err := 0;
      if info.kind.Stor? {
        var ok := stor.OpenStor(info.cookie);
        if !ok {
          err := API_ENODEV;
        }
      } else if info.kind.Net? {
        if current != info.cookie {
          err := API_ENODEV;
        } else if !initOk {
          err := API_EIO;
        } else {
          state := state.(inits := state.inits + 1);
        }
      } else {
        err := API_ENODEV;
      }
      if err == 0 {
        state := state.(open := true);
      }
    }

    /** `API_dev_close` */
    method Close(current: Cookie) returns (err: nat)
      modifies this
      ensures !old(state).open ==> err == 0 && state == old(state)
      ensures old(state).open ==>
                err == if info.cookie == NULL then 2 else match info.kind
                  case NoKind => 2
                  case Stor(_) => 0
                  case Net => if current != info.cookie then 2 else 0
      ensures err != 0 ==> state == old(state)
      ensures old(state).open && err == 0 ==>
                state == HandleState(false, old(state).inits, old(state).halts + if info.kind.Net? then 1 else 0)
      ensures info.kind.Net? && info.cookie != NULL ==> state == NetStep(info.cookie, old(state), CloseCall(current))
    {
      if !state.open {
        return 0;
      }
      if info.cookie == NULL {
        return API_ENODEV;
      }
      err := 0;
      if info.kind.Stor? {
      } else if info.kind.Net? {
        if current != info.cookie {
          err := API_ENODEV;
        } else {
          state := state.(halts := state.halts + 1);
        }
      } else {
        err := API_ENODEV;
      }
      if err == 0 {
        state := state.(open := false);
      }
    }

    /** Any sequence of calls on a fresh network handle. */
    method Drive(stor: Api, calls: seq<Call>)
      requires info.kind.Net? && info.cookie != NULL && state == CLOSED
      modifies this
      ensures state == NetRun(info.cookie, CLOSED, calls, |calls|)
      ensures state.inits - state.halts == if state.open then 1 else 0
    {
      for i := 0 to |calls|
        invariant state == NetRun(info.cookie, CLOSED, calls, i)
      {
        match calls[i] {
          case OpenCall(current, initOk) => var _ := Open(stor, current, initOk);
          case CloseCall(current) => var _ := Close(current);
        }
      }
      Balance(info.cookie, calls, |calls|);
    }
  }
}
