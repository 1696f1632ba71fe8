/** devices.c: the growable array of IP-MAC pairs refines a finite map that never loses an address. */
module Devices {
  import opened Net

  datatype Pair = Pair(ip: Ip, mac: Mac)

  const ZERO_MAC := Mac(0, 0, 0, 0, 0, 0)

  /** A list of pairs with distinct addresses that are exactly those of the map. */
  predicate Lists(s: seq<Pair>, table: map<Ip, Mac>) {
    && (forall i :: 0 <= i < |s| ==> s[i].ip in table && table[s[i].ip] == s[i].mac)
    && (forall ip :: ip in table ==> exists i :: 0 <= i < |s| && s[i].ip == ip)
    && (forall i, j :: 0 <= i < j < |s| ==> s[i].ip != s[j].ip)
  }

  lemma ListsUpdate(s: seq<Pair>, table: map<Ip, Mac>, i: nat, mac: Mac)
    requires Lists(s, table) && i < |s|
    ensures Lists(s[i := Pair(s[i].ip, mac)], table[s[i].ip := mac])
  {
    var r := s[i := Pair(s[i].ip, mac)];
    forall ip | ip in table
      ensures exists j :: 0 <= j < |r| && r[j].ip == ip
    {
      var j :| 0 <= j < |s| && s[j].ip == ip;
      assert r[j].ip == ip;
    }
  }

  lemma ListsAppend(s: seq<Pair>, table: map<Ip, Mac>, pair: Pair)
    requires Lists(s, table) && pair.ip !in table
    ensures Lists(s + [pair], table[pair.ip := pair.mac])
  {
    var r := s + [pair];
    assert r[|s|] == pair;
    forall ip | ip in table
      ensures exists j :: 0 <= j < |r| && r[j].ip == ip
    {
      var j :| 0 <= j < |s| && s[j].ip == ip;
      assert r[j].ip == ip;
    }
  }

  class DeviceTable {
    var arr: array<Pair>
    /** `ip_mac_map_alloc_amt`. */
    var allocAmt: nat
    /** `ip_mac_map_amt`. */
    var amt: nat

    ghost var table: map<Ip, Mac>

    ghost predicate Valid()
      reads this, arr
    {
      amt <= allocAmt == arr.Length && Lists(arr[..amt], table)
    }

    constructor ()
      ensures Valid() && table == map[] && fresh(arr)
    {
      arr := new Pair[0];
      allocAmt, amt, table := 0, 0, map[];
    }

    /** Position of `ip`, or `amt`: the search that all three functions do. */
    method Find(ip: Ip) returns (i: nat)
      requires Valid()
      ensures i <= amt && (i < amt <==> ip in table)
      ensures i < amt ==> arr[i].ip == ip
    {
      i := 0;
      while i < amt
        invariant i <= amt && forall j :: 0 <= j < i ==> arr[..amt][j].ip != ip
      {
        if arr[i].ip == ip {
          assert arr[..amt][i].ip in table;
          return;
        }
        i := i + 1;
      }
    }

    /** `update_ip_mac_pair`. */
    method Update(pair: Pair)
      requires Valid()
      modifies this, arr
      ensures Valid() && table == old(table)[pair.ip := pair.mac]
      ensures arr == old(arr) || fresh(arr)
    {
      var i := Find(pair.ip);
      ghost var s := arr[..amt];
      if i < amt {
        ListsUpdate(s, table, i, pair.mac);
        arr[i] := Pair(arr[i].ip, pair.mac);
        assert arr[..amt] == s[i := Pair(s[i].ip, pair.mac)];
      } else {
        if amt >= allocAmt {
          Reallocate(pair);
        }
        ListsAppend(s, table, pair);
        arr[amt] := pair;
        amt := amt + 1;
        assert arr[..amt] == s + [pair];
      }
      table := table[pair.ip := pair.mac];
    }

    /** `realloc` to twice the size, at least ten; `filler` stands for the bytes that are not yet written. */
    method Reallocate(filler: Pair)
      requires Valid() && amt == allocAmt
      modifies this
      ensures Valid() && table == old(table) && amt == old(amt) && fresh(arr)
      ensures arr[..amt] == old(arr[..amt])
      ensures amt < allocAmt && allocAmt == (if old(allocAmt) == 0 then 5 else old(allocAmt)) * 2
    {
      ghost var s := arr[..amt];
      if allocAmt == 0 {
        allocAmt := 5;
      }
      var bigger := new Pair[allocAmt * 2](_ => filler);
      forall j | 0 <= j < amt {
        bigger[j] := arr[j];
      }
      arr := bigger;
      allocAmt := allocAmt * 2;
      assert forall j :: 0 <= j < amt ==> arr[j] == s[j];
      assert arr[..amt] == s;
    }

    /** `has_mac_for_ip`. */
    method HasMac(ip: Ip) returns (b: bool)
      requires Valid()
      ensures b <==> ip in table
    {
      var i := Find(ip);
      b := i < amt;
    }

    /** `get_mac_from_ip`: all zeros for an address that is not known. */
    method GetMac(ip: Ip) returns (mac: Mac)
      requires Valid()
      ensures mac == if ip in table then table[ip] else ZERO_MAC
    {
      mac := ZERO_MAC;
      var i := Find(ip);
      if i < amt {
        mac := arr[i].mac;
      }
    }
  }
}
