/**
 * `CircularHostList`: a host list with a rotating cursor `ini`. `Next` hands
 * out the host at `ini mod size` and advances the cursor; the queries build a
 * copy sorted by free PEs and look up the tightest host with enough free PEs.
 *
 * Hosts are named by `HostId`; a host's current number of free PEs is read
 * through the function `free`, an input of the queries that need it.
 */
module CircularHostList {

  import opened Wrappers
  import opened StableSort
  import opened Arithmetic

  type HostId = nat

  /** `s` without the first occurrence of `x` (unchanged if there is none). */
  function RemoveFirst(s: seq<HostId>, x: HostId): (r: seq<HostId>)
    ensures x !in s ==> r == s
    ensures x in s ==> |r| == |s| - 1
    ensures multiset(r) == multiset(s) - multiset{x}
  {
    if s == [] then []
    else if s[0] == x then
      assert s == [s[0]] + s[1..];
      s[1..]
    else
      assert s == [s[0]] + s[1..];
      [s[0]] + RemoveFirst(s[1..], x)
  }

  /** Position of the first occurrence of `x` in `s`. */
  function FirstIndex(s: seq<HostId>, x: HostId): (i: nat)
    requires x in s
    ensures i < |s| && s[i] == x && forall j :: 0 <= j < i ==> s[j] != x
  {
    if s[0] == x then 0 else 1 + FirstIndex(s[1..], x)
  }

  /** Only the first occurrence is dropped: the hosts before and after it stay in order. */
  lemma {:induction false} RemoveFirstCutsFirstOccurrence(s: seq<HostId>, x: HostId)
    requires x in s
    ensures RemoveFirst(s, x) == s[..FirstIndex(s, x)] + s[FirstIndex(s, x) + 1..]
  {
    if s[0] != x {
      var t := s[1..];
      assert s == [s[0]] + t;
      RemoveFirstCutsFirstOccurrence(t, x);
      ConsCut(s, FirstIndex(t, x));
    }
  }

  lemma ConsCut(s: seq<HostId>, i: nat)
    requires i + 1 < |s|
    ensures [s[0]] + (s[1..][..i] + s[1..][i + 1..]) == s[..i + 1] + s[i + 2..]
  {
    assert s[..i + 1] == [s[0]] + s[1..][..i];
    assert s[i + 2..] == s[1..][i + 1..];
  }

  /** The hosts handed out by `k` successive draws starting at cursor `ini`. */
  function Draws(list: seq<HostId>, ini: nat, k: nat): (d: seq<HostId>)
    requires list != []
    ensures |d| == k
    ensures forall i :: 0 <= i < k ==> d[i] == list[(ini + i) % |list|]
  {
    if k == 0 then [] else Draws(list, ini, k - 1) + [list[(ini + k - 1) % |list|]]
  }

  /** A draw sequence is one `Next` result followed by the draws from the advanced cursor. */
  lemma DrawsStep(list: seq<HostId>, ini: nat, k: nat)
    requires list != []
    ensures Draws(list, ini, k + 1) == [list[ini % |list|]] + Draws(list, ini + 1, k)
  {
    var a := Draws(list, ini, k + 1);
    var b := [list[ini % |list|]] + Draws(list, ini + 1, k);
    forall i | 0 <= i < k + 1 ensures a[i] == b[i] {
      if i > 0 {
        assert b[i] == Draws(list, ini + 1, k)[i - 1];
        assert ini + 1 + (i - 1) == ini + i;
      }
    }
  }

  /**
   * A full round from any cursor is the list rotated at `ini mod size`, so it
   * hands out every host exactly once; from cursor 0 it is the list itself.
   */
  lemma {:induction false} FullRoundIsRotation(list: seq<HostId>, ini: nat)
    requires list != []
    ensures Draws(list, ini, |list|) == list[ini % |list|..] + list[..ini % |list|]
    ensures multiset(Draws(list, ini, |list|)) == multiset(list)
    ensures Draws(list, 0, |list|) == list
  {
    var n := |list|;
    var rot := list[ini % n..] + list[..ini % n];
    var d := Draws(list, ini, n);
    forall i | 0 <= i < n ensures d[i] == rot[i] {
      DrawIsRotated(list, ini, i);
    }
    assert list == list[..ini % n] + list[ini % n..];
    var d0 := Draws(list, 0, n);
    forall i | 0 <= i < n ensures d0[i] == list[i] {
      ModUnique(i, n, 0, i);
    }
  }

  /** The `i`-th draw of a round from `ini` is the `i`-th host of the rotated list. */
  lemma DrawIsRotated(list: seq<HostId>, ini: nat, i: nat)
    requires i < |list|
    ensures list[(ini + i) % |list|] == (list[ini % |list|..] + list[..ini % |list|])[i]
  {
    var n := |list|;
    var r := ini % n;
    var q := ini / n;
    if i < n - r {
      ModUnique(ini + i, n, q, r + i);
    } else {
      assert ini + i == (q + 1) * n + (r + i - n);
      ModUnique(ini + i, n, q + 1, r + i - n);
    }
  }

  class CircularHostList {
    var list: seq<HostId>
    var ini: nat

    constructor (hosts: seq<HostId>)
      ensures list == hosts && ini == 0
    {
      list := hosts;
      ini := 0;
    }

    /** Appends `host` at the end; always reports success. */
    method Add(host: HostId) returns (added: bool)
      modifies this
      ensures added
      ensures list == old(list) + [host] && ini == old(ini)
    {
      list := list + [host];
      added := true;
    }

    /** Removes the first occurrence of `host` and reports whether there was one. */
    method Remove(host: HostId) returns (found: bool)
      modifies this
      ensures found <==> host in old(list)
      ensures list == RemoveFirst(old(list), host) && ini == old(ini)
    {
      found := host in list;
      list := RemoveFirst(list, host);
    }

    /**
     * The host at the cursor, modulo the list length, after which the cursor
     * moves on by one; nothing, and no cursor move, on an empty list.
     */
    method Next() returns (host: Option<HostId>)
      modifies this
      ensures list == old(list)
      ensures old(list) == [] ==> host == None && ini == old(ini)
      ensures old(list) != [] ==> host == Some(Draws(list, old(ini), 1)[0]) && ini == old(ini) + 1
    {
      host := None;
      if list != [] {
        var index := ini % |list|;
        ini := ini + 1;
        host := Some(list[index]);
      }
    }

    /**
     * `k` successive calls of `Next` on an unchanged non-empty list, as a
     * client of the rotation makes them: they hand out `Draws(list, ini, k)`,
     * so a full round from cursor 0 hands out every host once, in list order
     * (`FullRoundIsRotation`).
     */
    method NextTimes(k: nat) returns (drawn: seq<HostId>)
      requires list != []
      modifies this
      ensures list == old(list) && ini == old(ini) + k
      ensures drawn == Draws(list, old(ini), k)
    {
      drawn := [];
      var i := 0;
      while i < k
        invariant 0 <= i <= k && list == old(list) && ini == old(ini) + i
        invariant drawn == Draws(list, old(ini), i)
      {
        var host := Next();
        drawn := drawn + [host.value];
        i := i + 1;
      }
    }

    /** A read-only view of the hosts, in list order. */
    function Get(): (hosts: seq<HostId>)
      reads this
      ensures |hosts| == Size() && forall i :: 0 <= i < |hosts| ==> hosts[i] == list[i]
    {
      list
    }

    function Size(): (n: nat)
      reads this
      ensures n == |list|
    {
      |list|
    }

    /**
     * A new list holding the same hosts sorted stably by ascending free PEs,
     * with its cursor at 0; the receiver is left as it was.
     */
    method OrderedAscByAvailablePes(free: HostId -> int) returns (ordered: CircularHostList)
      ensures fresh(ordered) && ordered.ini == 0
      ensures ordered.list == SortBy(list, free)
      ensures SortedBy(ordered.list, free) && multiset(ordered.list) == multiset(list)
      ensures forall k :: WithKey(ordered.list, free, k) == WithKey(list, free, k)
    {
      SortBySortsAndPermutes(list, free);
      forall k ensures WithKey(SortBy(list, free), free, k) == WithKey(list, free, k) {
        SortByIsStable(list, free, k);
      }
      ordered := new CircularHostList(SortBy(list, free));
    }

    /**
     * The host with the fewest free PEs among those with at least
     * `numberOfPes` free (the first in list order among equals), or nothing
     * when no host has that many free.
     */
    method GetWithMinimumNumberOfPesEquals(free: HostId -> int, numberOfPes: int) returns (host: Option<HostId>)
      ensures host == None <==> forall h :: h in list ==> free(h) < numberOfPes
      ensures host.Some? ==> host.value in list && free(host.value) >= numberOfPes
      ensures host.Some? ==> forall h :: h in list && free(h) >= numberOfPes ==> free(host.value) <= free(h)
      ensures host.Some? ==> var same := WithKey(list, free, free(host.value)); same != [] && same[0] == host.value
    {
      var ordered := OrderedAscByAvailablePes(free);
      var hosts := ordered.Get();
      var i := 0;
      while i < |hosts|
        invariant 0 <= i <= |hosts|
        invariant forall j :: 0 <= j < i ==> free(hosts[j]) < numberOfPes
      {
        if free(hosts[i]) >= numberOfPes {
          FirstQualifyingIsTightest(list, hosts, free, numberOfPes, i);
          return Some(hosts[i]);
        }
        i := i + 1;
      }
      NoneQualifying(list, hosts, free, numberOfPes);
      return None;
    }
  }

  /**
   * In a stable ascending ordering of `list`, the first host with at least
   * `k` free is the tightest fit and comes first among its equals in `list`.
   */
  lemma FirstQualifyingIsTightest(list: seq<HostId>, hosts: seq<HostId>, free: HostId -> int, k: int, i: nat)
    requires SortedBy(hosts, free) && multiset(hosts) == multiset(list)
    requires i < |hosts| && free(hosts[i]) >= k
    requires WithKey(hosts, free, free(hosts[i])) == WithKey(list, free, free(hosts[i]))
    requires forall j :: 0 <= j < i ==> free(hosts[j]) < k
    ensures hosts[i] in list
    ensures forall h :: h in list && free(h) >= k ==> free(hosts[i]) <= free(h)
    ensures var same := WithKey(list, free, free(hosts[i])); same != [] && same[0] == hosts[i]
  {
    FirstWithKey(hosts, free, i);
    forall h | h in list && free(h) >= k ensures free(hosts[i]) <= free(h) {
      assert h in multiset(hosts);
      var j :| 0 <= j < |hosts| && hosts[j] == h;
    }
    assert hosts[i] in multiset(list);
  }

  lemma NoneQualifying(list: seq<HostId>, hosts: seq<HostId>, free: HostId -> int, k: int)
    requires multiset(hosts) == multiset(list)
    requires forall j :: 0 <= j < |hosts| ==> free(hosts[j]) < k
    ensures forall h :: h in list ==> free(h) < k
  {
    forall h | h in list ensures free(h) < k {
      assert h in multiset(hosts);
      var j :| 0 <= j < |hosts| && hosts[j] == h;
    }
  }

  /** If no element before position `i` has `s[i]`'s key, `s[i]` heads that key's elements. */
  lemma {:induction false} FirstWithKey<T>(s: seq<T>, key: T -> int, i: nat)
    requires i < |s|
    requires forall j :: 0 <= j < i ==> key(s[j]) != key(s[i])
    ensures WithKey(s, key, key(s[i])) != [] && WithKey(s, key, key(s[i]))[0] == s[i]
  {
    if i > 0 {
      FirstWithKey(s[1..], key, i - 1);
    }
  }
}
