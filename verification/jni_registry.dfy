/** The registry of an Android GATT server: connected centrals, and the notifiers of their
    subscriptions, under any run of serialized callbacks. */
module JniRegistry {

  /** A connected device; `deleted` counts how often its global reference was deleted. */
  class Central {
    const addr: string
    var hasRef: bool
    var mtu: int
    ghost var deleted: nat

    ghost predicate Valid()
      reads this
    {
      deleted == if hasRef then 0 else 1
    }

    constructor (addr: string)
      ensures Valid() && this.addr == addr && hasRef && mtu == 23
    {
      this.addr, hasRef, mtu, deleted := addr, true, 23, 0;
    }

    /** Deletes the reference unless that has been done. */
    method Close()
      requires Valid()
      modifies this`hasRef, this`deleted
      ensures Valid() && !hasRef && deleted == 1
    {
      var obj := hasRef;
      hasRef := false;
      if obj {
        deleted := deleted + 1;
      }
    }

    /** Runs a function on the reference, or fails when it is gone. */
    method WithBluetoothDeviceObject(result: bool) returns (ok: bool)
      ensures ok == (hasRef && result)
    {
      if !hasRef {
        return false;
      }
      return result;
    }

    method SetMTU(m: int)
      modifies this`mtu
      ensures mtu == m
    {
      mtu := m;
    }
  }

  class ServerNotifier {
    const uuid: string
    const c: Central
    const confirm: bool
    var done: bool

    constructor (uuid: string, c: Central, confirm: bool)
      ensures this.uuid == uuid && this.c == c && this.confirm == confirm && !done
    {
      this.uuid, this.c, this.confirm, done := uuid, c, confirm, false;
    }

    method Stop()
      modifies this
      ensures done
    {
      done := true;
    }

    /** `accepted` is what the platform answers. */
    method Write(size: nat, accepted: bool) returns (sent: nat, ok: bool)
      ensures ok == (!done && c.hasRef && accepted) && sent == if ok then size else 0
    {
      if done {
        return 0, false;
      }
      ok := c.WithBluetoothDeviceObject(accepted);
      if !ok {
        return 0, false;
      }
      return size, true;
    }
  }

  function Key(uuid: string, addr: string): string { uuid + ":" + addr }

  predicate HasSuffix(s: string, suffix: string)
  {
    |suffix| <= |s| && s[|s| - |suffix|..] == suffix
  }

  /** The notifiers removed with address `addr`. */
  predicate Hit(key: string, n: ServerNotifier, addr: string)
  {
    n.c.addr == addr || HasSuffix(key, ":" + addr)
  }

  class GattServerState {
    const charUuids: set<string>
    var centrals: map<string, Central>
    var notifiers: map<string, ServerNotifier>
    ghost var registered: set<Central>          // every central ever stored
    ghost var created: set<ServerNotifier>      // every notifier ever stored

    /** A central is current for its address or its reference has been deleted exactly once;
        a notifier is in the table, live, for the current central of its address, or stopped. */
    ghost predicate Valid()
      reads this, registered, created
    {
      CentralsOk() && NotifiersOk() && forall k :: k in notifiers ==> Current(notifiers[k].c)
    }

    ghost predicate CentralsOk()
      reads this`centrals, this`registered, registered
    {
      && (forall a :: a in centrals ==> centrals[a] in registered && centrals[a].addr == a)
      && (forall c :: c in registered ==> c.Valid() && (Current(c) || !c.hasRef))
    }

    /** All but `gone`, which is about to be closed, are as they should be. */
    ghost predicate CentralsOkBut(gone: Central)
      reads this`centrals, this`registered, registered
    {
      && (forall a :: a in centrals ==> centrals[a] in registered && centrals[a].addr == a)
      && (forall c :: c in registered ==> c.Valid() && (Current(c) || !c.hasRef || c == gone))
      && gone in registered && !Current(gone)
    }

    /** Every central but `gone` keeps its reference if it had one. */
    method CloseGone(gone: Central)
      requires CentralsOkBut(gone)
      modifies gone`hasRef, gone`deleted
      ensures CentralsOk() && !gone.hasRef
    {
      gone.Close();
    }

    method Swap(c: Central) returns (previous: Central)
      requires CentralsOk() && c.Valid() && c.addr in centrals && !Current(c)
      modifies this`centrals, this`registered
      ensures CentralsOkBut(previous) && previous in old(registered) && previous != c
      ensures previous == old(centrals)[c.addr] && previous.addr == c.addr && Current(c)
      ensures centrals == old(centrals)[c.addr := c] && registered == old(registered) + {c}
    {
      previous := centrals[c.addr];
      registered := registered + {c};
      centrals := centrals[c.addr := c];
    }

    method Unlink(addr: string) returns (c: Central)
      requires CentralsOk() && addr in centrals
      modifies this`centrals
      ensures CentralsOkBut(c) && c in registered && c.addr == addr && c == old(centrals)[addr]
      ensures centrals == old(centrals) - {addr}
    {
      c := centrals[addr];
      centrals := centrals - {addr};
    }

    ghost predicate NotifiersOk()
      reads this`notifiers, this`created, created
    {
      && (forall u :: u in charUuids ==> ':' !in u)
      && (forall k :: k in notifiers ==> notifiers[k] in created && !notifiers[k].done && Named(k, notifiers[k]))
      && (forall n :: n in created ==> n.done || Listed(n))
    }

    predicate Listed(n: ServerNotifier)
      reads this`notifiers
    {
      Key(n.uuid, n.c.addr) in notifiers && notifiers[Key(n.uuid, n.c.addr)] == n
    }

    predicate Named(k: string, n: ServerNotifier)
    {
      k == Key(n.uuid, n.c.addr) && n.uuid in charUuids
    }

    predicate Current(c: Central)
      reads this`centrals
    {
      c.addr in centrals && centrals[c.addr] == c
    }

    constructor (charUuids: set<string>)
      requires forall u :: u in charUuids ==> ':' !in u
      ensures Valid() && this.charUuids == charUuids && centrals == map[] && notifiers == map[]
      ensures registered == {} && created == {}
    {
      this.charUuids := charUuids;
      centrals, notifiers, registered, created := map[], map[], {}, {};
    }

    /** Takes the notifiers of an address out of the table, in some order. */
    method PopNotifiersForCentralAddress(addr: string) returns (result: seq<ServerNotifier>)
      modifies this`notifiers
      ensures notifiers == Without(old(notifiers), addr)
      ensures forall n :: n in result <==>
        exists k :: k in old(notifiers) && Hit(k, old(notifiers)[k], addr) && old(notifiers)[k] == n
    {
      result := [];
      var keys := notifiers.Keys;
      while keys != {}
        invariant keys <= old(notifiers).Keys
        invariant forall k :: k in notifiers <==> k in old(notifiers) && (k in keys || !Hit(k, old(notifiers)[k], addr))
        invariant forall k :: k in notifiers ==> notifiers[k] == old(notifiers)[k]
        invariant forall n :: n in result ==>
          exists k :: k in old(notifiers) && Hit(k, old(notifiers)[k], addr) && old(notifiers)[k] == n
        invariant forall k :: k in old(notifiers) && k !in keys && Hit(k, old(notifiers)[k], addr) ==>
          old(notifiers)[k] in result
        decreases keys
      {
        var key :| key in keys;
        var n := notifiers[key];
        keys := keys - {key};
        if n.c.addr == addr || HasSuffix(key, ":" + addr) {
          notifiers := notifiers - {key};
          result := result + [n];
        }
      }
    }

    method StopAll(ns: seq<ServerNotifier>)
      modifies set n | n in ns
      ensures forall n :: n in ns ==> n.done
    {
      for i := 0 to |ns|
        invariant forall j :: 0 <= j < i ==> ns[j].done
      {
        assert ns[i] in ns;
        ns[i].Stop();
      }
    }

    method PopAndStop(addr: string)
      requires NotifiersOk()
      modifies this`notifiers, created
      ensures NotifiersOk() && notifiers == Without(old(notifiers), addr)
      ensures forall k :: k in notifiers ==>
        k in old(notifiers) && notifiers[k] == old(notifiers)[k] && notifiers[k].c.addr != addr
      ensures forall k :: k in old(notifiers) ==> old(notifiers)[k].done == Hit(k, old(notifiers)[k], addr)
      ensures forall n :: n in created && old(n.done) ==> n.done
    {
      forall j, k | j in notifiers && k in notifiers && notifiers[j] == notifiers[k] ensures j == k {
        assert Named(j, notifiers[j]) && Named(k, notifiers[k]);
      }
      var stale := PopNotifiersForCentralAddress(addr);
      forall n | n in stale ensures n in created {
        var k :| k in old(notifiers) && Hit(k, old(notifiers)[k], addr) && old(notifiers)[k] == n;
      }
      StopAll(stale);
    }

    /** A device connects; a central it replaces is closed and loses its notifiers. Another
        connection of the current central changes nothing. */
    method RememberConnectedCentral(c: Central)
      requires Valid() && c.Valid()
      modifies this`centrals, this`notifiers, this`registered, registered, created
      ensures Valid() && centrals == old(centrals)[c.addr := c] && c.hasRef == old(c.hasRef)
      ensures registered == old(registered) + {c}
      ensures var replaced := c.addr in old(centrals) && old(centrals)[c.addr] != c;
        && notifiers == (if replaced then Without(old(notifiers), c.addr) else old(notifiers))
        && (replaced ==> !old(centrals)[c.addr].hasRef)
      ensures forall d :: d in old(registered) && d.addr != c.addr ==> d.hasRef == old(d.hasRef)
    {
      hide Without, Hit, NotifiersOk;
      if c.addr in centrals && centrals[c.addr] != c {
        ReplaceCentral(c);
      } else {
        registered := registered + {c};
        centrals := centrals[c.addr := c];
      }
    }

    method ReplaceCentral(c: Central)
      requires Valid() && c.Valid() && c.addr in centrals && !Current(c)
      modifies this`centrals, this`notifiers, this`registered, registered, created
      ensures Valid() && centrals == old(centrals)[c.addr := c] && c.hasRef == old(c.hasRef)
      ensures registered == old(registered) + {c} && notifiers == Without(old(notifiers), c.addr)
      ensures !old(centrals)[c.addr].hasRef
      ensures forall d :: d in old(registered) && d.addr != c.addr ==> d.hasRef == old(d.hasRef)
    {
      hide Without, Hit, NotifiersOk, CentralsOk, CentralsOkBut;
      var previous := Swap(c);
      PopAndStop(c.addr);
      CloseGone(previous);
    }

    /** A device disconnects: its central is closed, its notifiers end. */
    method DisconnectCentral(addr: string) returns (existed: bool)
      requires Valid()
      modifies this`centrals, this`notifiers, registered, created
      ensures Valid() && existed == (addr in old(centrals)) && centrals == old(centrals) - {addr}
      ensures notifiers == Without(old(notifiers), addr)
      ensures existed ==> !old(centrals)[addr].hasRef
      ensures forall d :: d in registered && d.addr != addr ==> d.hasRef == old(d.hasRef)
    {
      existed := addr in centrals;
      if existed {
        RemoveCentral(addr);
      } else {
        PopAndStop(addr);
      }
    }

    method RemoveCentral(addr: string)
      requires Valid() && addr in centrals
      modifies this`centrals, this`notifiers, registered, created
      ensures Valid() && centrals == old(centrals) - {addr} && notifiers == Without(old(notifiers), addr)
      ensures !old(centrals)[addr].hasRef
      ensures forall d :: d in registered && d.addr != addr ==> d.hasRef == old(d.hasRef)
    {
      hide Without, Hit, NotifiersOk, CentralsOk, CentralsOkBut;
      var c := Unlink(addr);
      PopAndStop(addr);
      CloseGone(c);
    }

    /** The central of a request: the current one, or a new one that becomes current. */
    method FindCentral(addr: string) returns (c: Central)
      requires Valid()
      modifies this`centrals, this`registered
      ensures Valid() && Current(c) && c.addr == addr && c in registered
      ensures addr in old(centrals) ==> centrals == old(centrals) && c == old(centrals)[addr]
      ensures addr in old(centrals) ==> registered == old(registered)
      ensures addr !in old(centrals) ==> fresh(c) && c.hasRef && centrals == old(centrals)[addr := c]
      ensures addr !in old(centrals) ==> registered == old(registered) + {c}
    {
      hide NotifiersOk, HasSuffix, Key;
      if addr in centrals {
        return centrals[addr];
      }
      c := new Central(addr);
      registered := registered + {c};
      centrals := centrals[addr := c];
    }

    /** A write to the CCC descriptor of a characteristic: 0 unsubscribes, anything else
        subscribes anew; a value of fewer than two bytes counts as 0. */
    method HandleCCCDWrite(cent: Central, charUuid: string, cccd: nat)
      requires Valid() && Current(cent)
      modifies this`notifiers, this`created, created
      ensures Valid() && centrals == old(centrals) && registered == old(registered)
      ensures var key := Key(charUuid, cent.addr);
        && (charUuid !in charUuids ==> notifiers == old(notifiers))
        && (charUuid in charUuids && cccd == 0 ==> notifiers == old(notifiers) - {key})
        && (charUuid in charUuids && cccd != 0 ==>
              && key in notifiers && notifiers == old(notifiers)[key := notifiers[key]] && fresh(notifiers[key])
              && notifiers[key].c == cent && notifiers[key].confirm == (cccd / 2 % 2 == 1))
        && (charUuid in charUuids && key in old(notifiers) ==> old(notifiers)[key].done)
        && forall k :: k in old(notifiers) && k != key ==> !old(notifiers)[k].done
    {
      if charUuid !in charUuids {
        return;
      }
      if cccd == 0 {
        Unsubscribe(Key(charUuid, cent.addr));
      } else {
        Subscribe(cent, charUuid, cccd / 2 % 2 == 1);
      }
    }

    method Unsubscribe(key: string)
      requires NotifiersOk()
      modifies this`notifiers, created
      ensures NotifiersOk() && notifiers == old(notifiers) - {key}
      ensures key in old(notifiers) ==> old(notifiers)[key].done
      ensures forall k :: k in old(notifiers) && k != key ==> !old(notifiers)[k].done
    {
      hide HasSuffix, Key;
      if key in notifiers {
        notifiers[key].Stop();
        notifiers := notifiers - {key};
      }
    }

    method Subscribe(cent: Central, charUuid: string, confirm: bool)
      requires NotifiersOk() && charUuid in charUuids
      modifies this`notifiers, this`created, created
      ensures NotifiersOk()
      ensures var key := Key(charUuid, cent.addr);
        && key in notifiers && notifiers == old(notifiers)[key := notifiers[key]] && fresh(notifiers[key])
        && notifiers[key].c == cent && notifiers[key].confirm == confirm
        && (key in old(notifiers) ==> old(notifiers)[key].done)
        && forall k :: k in old(notifiers) && k != key ==> !old(notifiers)[k].done
    {
      hide HasSuffix, Key;
      var key := Key(charUuid, cent.addr);
      StopAt(key);
      var n := new ServerNotifier(charUuid, cent, confirm);
      Install(key, n);
    }

    /** All but the notifier under `key`, which is about to be replaced, are as they should be. */
    ghost predicate NotifiersOkBut(key: string)
      reads this`notifiers, this`created, created
    {
      && (forall u :: u in charUuids ==> ':' !in u)
      && (forall k :: k in notifiers ==> notifiers[k] in created && Named(k, notifiers[k]))
      && (forall k :: k in notifiers && k != key ==> !notifiers[k].done)
      && (forall n :: n in created ==> n.done || Listed(n))
      && (key in notifiers ==> notifiers[key].done)
    }

    method StopAt(key: string)
      requires NotifiersOk()
      modifies created
      ensures NotifiersOkBut(key)
    {
      forall k | k in notifiers && key in notifiers && k != key ensures notifiers[k] != notifiers[key] {
        assert Named(k, notifiers[k]) && Named(key, notifiers[key]);
      }
      if key in notifiers {
        notifiers[key].Stop();
      }
    }

    method Install(key: string, n: ServerNotifier)
      requires NotifiersOkBut(key) && n !in created && !n.done && Named(key, n)
      modifies this`notifiers, this`created
      ensures NotifiersOk() && notifiers == old(notifiers)[key := n] && created == old(created) + {n}
    {
      notifiers := notifiers[key := n];
      created := created + {n};
    }

    method HandleMtuChanged(addr: string, mtu: int)
      requires Valid()
      modifies set a | a in centrals :: centrals[a]
      ensures Valid() && (addr in centrals ==> centrals[addr].mtu == mtu)
      ensures forall a :: a in centrals && a != addr ==> centrals[a].mtu == old(centrals[a].mtu)
    {
      if addr in centrals {
        centrals[addr].SetMTU(mtu);
      }
    }

    /** User code may close a central it was handed, at any time. */
    method UserClose(c: Central)
      requires Valid() && c in registered
      modifies c`hasRef, c`deleted
      ensures Valid() && !c.hasRef && c.deleted == 1
    {
      c.Close();
    }

    /** Every central is closed; the notifiers are the caller's to stop. */
    method CloseCentrals()
      requires CentralsOk() && NotifiersOk()
      modifies this`centrals, registered
      ensures CentralsOk() && NotifiersOk() && centrals == map[] && (notifiers == map[] ==> Valid())
      ensures forall c :: c in registered ==> !c.hasRef && c.deleted == 1
    {
      var all := centrals.Values;
      ghost var were := centrals;
      centrals := map[];
      while all != {}
        invariant all <= were.Values && centrals == map[] && NotifiersOk()
        invariant forall c :: c in registered ==> c.Valid() && (c in all || !c.hasRef)
        decreases all
      {
        var c :| c in all;
        assert c in registered;
        c.Close();
        all := all - {c};
      }
    }

    /** The server goes away: every notifier is stopped, every central closed. */
    method CloseGattServer()
      requires Valid()
      modifies this`centrals, this`notifiers, registered, created
      ensures Valid() && centrals == map[] && notifiers == map[]
      ensures forall c :: c in registered ==> !c.hasRef && c.deleted == 1
      ensures forall n :: n in created ==> n.done
    {
      hide HasSuffix, Key;
      var keys := notifiers.Keys;
      while keys != {}
        invariant keys <= notifiers.Keys && notifiers == old(notifiers) && CentralsOk()
        invariant forall k :: k in notifiers && k !in keys ==> notifiers[k].done
        invariant forall n :: n in created ==> n.done || Listed(n)
        decreases keys
      {
        var k :| k in keys;
        assert notifiers[k] in created;
        notifiers[k].Stop();
        keys := keys - {k};
      }
      forall n | n in created ensures n.done {
        assert n.done || Listed(n);
      }
      notifiers := map[];
      CloseCentrals();
    }
  }

  function Without(m: map<string, ServerNotifier>, addr: string): map<string, ServerNotifier>
  {
    map k | k in m && !Hit(k, m[k], addr) :: m[k]
  }

  /** The key of a notifier ends with a colon and its address. */
  lemma OwnAddressIsHit(n: ServerNotifier)
    ensures HasSuffix(Key(n.uuid, n.c.addr), ":" + n.c.addr) && Hit(Key(n.uuid, n.c.addr), n, n.c.addr)
  {
    var key, suffix := Key(n.uuid, n.c.addr), ":" + n.c.addr;
    assert key[|key| - |suffix|..] == suffix;
  }

  /** Removing the notifiers of `addr` reaches those of another address `other` exactly when
      `other` ends with a colon and `addr`; UUIDs hold no colon. */
  lemma OtherAddressHitIff(n: ServerNotifier, other: string, addr: string)
    requires ':' !in n.uuid && n.c.addr == other && other != addr
    ensures Hit(Key(n.uuid, other), n, addr) <==> HasSuffix(other, ":" + addr)
  {
    var key, suffix := Key(n.uuid, other), ":" + addr;
    if HasSuffix(key, suffix) {
      var at := |key| - |suffix|;
      assert key[at] == key[at..][0] == ':';
      assert forall i :: 0 <= i < |n.uuid| ==> key[i] == n.uuid[i];
      assert key[|n.uuid| + 1..] == other && key[at..][1..] == key[at + 1..] == addr;
      assert other[at - |n.uuid|..] == addr;
    }
    if HasSuffix(other, suffix) {
      assert key[|key| - |suffix|..] == other[|other| - |suffix|..];
    }
  }

  /** Addresses of one length, such as all MAC addresses, never reach each other. */
  lemma EqualLengthAddressesAreSeparate(n: ServerNotifier, addr: string)
    requires ':' !in n.uuid && |n.c.addr| == |addr|
    ensures Hit(Key(n.uuid, n.c.addr), n, addr) <==> n.c.addr == addr
  {
    if n.c.addr != addr {
      OtherAddressHitIff(n, n.c.addr, addr);
    }
  }
}
