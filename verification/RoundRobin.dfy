/** Round-robin sequences over m servers, and how often each server occurs in one. */
module RoundRobins {
  import opened Arith

  function Load(s: seq<nat>, l: nat): (n: nat) {
    if s == [] then 0
    else Load(s[..|s| - 1], l) + if s[|s| - 1] == l then 1 else 0
  }

  lemma {:induction false} LoadedIsListed(s: seq<nat>, l: nat)
    ensures Load(s, l) > 0 <==> l in s
  {
    if s != [] {
      var rest := s[..|s| - 1];
      assert s == rest + [s[|s| - 1]];
      LoadedIsListed(rest, l);
    }
  }

  lemma {:induction false} LoadOfCons(x: nat, s: seq<nat>, l: nat)
    ensures Load([x] + s, l) == Load(s, l) + if x == l then 1 else 0
  {
    if s == [] {
      assert [x] + s == [x] && [x][..0] == [];
    } else {
      assert ([x] + s)[..|s|] == [x] + s[..|s| - 1];
      LoadOfCons(x, s[..|s| - 1], l);
    }
  }

  function RoundRobin(start: nat, n: nat, m: nat): (s: seq<nat>)
    requires m >= 1
    ensures |s| == n && forall k :: 0 <= k < n ==> s[k] == (start + k) % m
  {
    seq(n, k requires 0 <= k => (start + k) % m)
  }

  /** Steps from server `start` to server l. */
  function Distance(start: nat, l: nat, m: nat): (d: nat)
    requires start < m && l < m
    ensures d < m
  {
    if l >= start then l - start else l + m - start
  }

  lemma RoundRobinHits(start: nat, n: nat, l: nat, m: nat)
    requires start < m && l < m
    ensures (start + n) % m == l <==> n % m == Distance(start, l, m)
  {
    var q, r := n / m, n % m;
    assert n == q * m + r;
    if start + r < m {
      DigitSplits(q, start + r, m);
    } else {
      DigitSplits(q + 1, start + r - m, m);
      OneMore(q, m);
    }
  }

  /** n round-robin steps put n / m or one more on each server: one more on the n mod m servers
      from `start` on. */
  lemma {:induction false} RoundRobinLoad(start: nat, n: nat, m: nat, l: nat)
    requires start < m && l < m
    ensures Load(RoundRobin(start, n, m), l) == n / m + if Distance(start, l, m) < n % m then 1 else 0
  {
    if n > 0 {
      var s := RoundRobin(start, n, m);
      assert s[..n - 1] == RoundRobin(start, n - 1, m);
      RoundRobinLoad(start, n - 1, m, l);
      RoundRobinHits(start, n - 1, l, m);
      NextQuotient(n - 1, m);
    }
  }

  /** The loads of any two servers differ by at most one. */
  lemma LoadsBalanced(start: nat, n: nat, m: nat, l: nat, l': nat)
    requires start < m && l < m && l' < m
    ensures Load(RoundRobin(start, n, m), l) <= Load(RoundRobin(start, n, m), l') + 1
  {
    RoundRobinLoad(start, n, m, l);
    RoundRobinLoad(start, n, m, l');
  }

  lemma ConsRoundRobin(start: nat, n: nat, m: nat)
    requires start < m
    ensures [start] + RoundRobin((start + 1) % m, n, m) == RoundRobin(start, n + 1, m)
  {
    var a, b := [start] + RoundRobin((start + 1) % m, n, m), RoundRobin(start, n + 1, m);
    forall k | 0 <= k < |a|
      ensures a[k] == b[k]
    {
      if k == 0 {
        SmallMod(start, m);
      } else {
        StartShift(start, k - 1, m);
      }
    }
  }

  lemma StartShift(start: nat, k: nat, m: nat)
    requires start < m
    ensures ((start + 1) % m + k) % m == (start + (k + 1)) % m
  {
    if start + 1 == m {
      DigitSplits(1, 0, m);
      WholeTurn(k, m);
    } else {
      SmallMod(start + 1, m);
    }
  }
}
