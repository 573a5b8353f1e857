/**
 * Longest-suffix resolution of a hostname against the configured host table
 * (main.go, `getIPAddress`). The table maps a domain suffix to the IP
 * address of the `host` entry configured for it; matching is plain string
 * suffix matching, not matching on label boundaries.
 */
module Resolver {
  import opened Strings

  /** The configured hosts: suffix to IP address. */
  type HostTable = map<string, string>

  /** The outcome of a lookup: the address found, or the "no host suffix" error. */
  datatype Lookup = Address(ip: string) | NoSuffixMatch

  /** `suffix` is a key of `hosts`, is a suffix of `hostname`, and no matching key is longer. */
  ghost predicate IsLongestMatch(hosts: HostTable, hostname: string, suffix: string)
  {
    && suffix in hosts
    && HasSuffix(hostname, suffix)
    && forall k :: k in hosts && HasSuffix(hostname, k) ==> |k| <= |suffix|
  }

  /** Two suffixes of one string with the same length are the same string. */
  lemma EqualLengthSuffixes(hostname: string, s1: string, s2: string)
    requires HasSuffix(hostname, s1) && HasSuffix(hostname, s2) && |s1| == |s2|
    ensures s1 == s2
  {
  }

  /**
   * The longest match is unique, so which key a scan of the table settles on
   * does not depend on the order in which it visits the keys.
   */
  lemma LongestMatchUnique(hosts: HostTable, hostname: string, s1: string, s2: string)
    requires IsLongestMatch(hosts, hostname, s1) && IsLongestMatch(hosts, hostname, s2)
    ensures s1 == s2
  {
    EqualLengthSuffixes(hostname, s1, s2);
  }

  /** Whenever some key matches, a longest matching key exists. */
  lemma {:induction false} LongestMatchExists(hosts: HostTable, hostname: string, k: string)
    requires k in hosts && HasSuffix(hostname, k)
    ensures exists m :: IsLongestMatch(hosts, hostname, m)
    decreases |hosts|
  {
    var shorter := hosts - {k};
    if exists k' :: k' in shorter && HasSuffix(hostname, k') && |k'| > |k| {
      var k' :| k' in shorter && HasSuffix(hostname, k') && |k'| > |k|;
      LongestMatchExists(shorter, hostname, k');
      var m :| IsLongestMatch(shorter, hostname, m);
      assert IsLongestMatch(hosts, hostname, m);
    } else {
      assert IsLongestMatch(hosts, hostname, k);
    }
  }

  /**
   * The specification of the lookup: the address of the longest configured
   * suffix of `hostname`, and an error exactly when no key is a suffix.
   */
  ghost function Resolve(hosts: HostTable, hostname: string): (r: Lookup)
    ensures r.NoSuffixMatch? <==> forall k :: k in hosts ==> !HasSuffix(hostname, k)
    ensures r.Address? ==> exists m :: IsLongestMatch(hosts, hostname, m) && r.ip == hosts[m]
  {
    if exists k :: k in hosts && HasSuffix(hostname, k) then
      var k :| k in hosts && HasSuffix(hostname, k);
      LongestMatchExists(hosts, hostname, k);
      var m :| IsLongestMatch(hosts, hostname, m);
      Address(hosts[m])
    else
      NoSuffixMatch
  }

  /** Resolution yields the address of the longest match, whichever that is. */
  lemma ResolveLongest(hosts: HostTable, hostname: string, suffix: string)
    requires IsLongestMatch(hosts, hostname, suffix)
    ensures Resolve(hosts, hostname) == Address(hosts[suffix])
  {
    var m :| IsLongestMatch(hosts, hostname, m) && Resolve(hosts, hostname).ip == hosts[m];
    LongestMatchUnique(hosts, hostname, m, suffix);
  }

  /**
   * `getIPAddress(hostname)`: scans the keys of the table in an arbitrary
   * order (Go's map iteration order), keeping in `best` (the source's
   * `match`) the longest key seen so far that is a suffix of `hostname`,
   * then looks `best` up. `best` starts as the empty string, so a configured
   * empty key resolves every hostname that no other key matches.
   */
  method GetIPAddress(hosts: HostTable, hostname: string) returns (r: Lookup)
    ensures r == Resolve(hosts, hostname)
  {
    var best := "";
    var unvisited := hosts.Keys;
    while unvisited != {}
      invariant unvisited <= hosts.Keys
      invariant best == "" || (best in hosts && HasSuffix(hostname, best))
      invariant forall k :: k in hosts && k !in unvisited && HasSuffix(hostname, k) ==> |k| <= |best|
      decreases unvisited
    {
      var suffix :| suffix in unvisited;
      if HasSuffix(hostname, suffix) && |suffix| > |best| {
        best := suffix;
      }
      unvisited := unvisited - {suffix};
    }
    if best in hosts {
      assert IsLongestMatch(hosts, hostname, best);
      ResolveLongest(hosts, hostname, best);
      r := Address(hosts[best]);
    } else {
      r := NoSuffixMatch;
    }
  }

  /** The more specific of two nested suffixes wins. */
  lemma MostSpecificSuffixWins(hosts: HostTable, hostname: string)
    requires hosts == map["example.com" := "10.0.0.1", "cluster.example.com" := "10.0.0.2"]
    requires hostname == "svc1.cluster.example.com"
    ensures Resolve(hosts, hostname) == Address("10.0.0.2")
  {
    assert HasSuffix(hostname, "example.com");
    assert HasSuffix(hostname, "cluster.example.com");
    assert IsLongestMatch(hosts, hostname, "cluster.example.com");
    ResolveLongest(hosts, hostname, "cluster.example.com");
  }

  /** Matching ignores label boundaries: `xexample.com` matches `example.com`. */
  lemma NotOnLabelBoundaries(hosts: HostTable, hostname: string)
    requires hosts == map["example.com" := "10.0.0.1"]
    requires hostname == "xexample.com"
    ensures Resolve(hosts, hostname) == Address("10.0.0.1")
  {
    assert HasSuffix(hostname, "example.com");
    assert IsLongestMatch(hosts, hostname, "example.com");
    ResolveLongest(hosts, hostname, "example.com");
  }

  /** A configured empty suffix catches every hostname no other key matches. */
  lemma EmptySuffixCatchAll(hosts: HostTable, hostname: string)
    requires "" in hosts
    requires forall k :: k in hosts && k != "" ==> !HasSuffix(hostname, k)
    ensures Resolve(hosts, hostname) == Address(hosts[""])
  {
    assert IsLongestMatch(hosts, hostname, "");
    ResolveLongest(hosts, hostname, "");
  }

  /** With a configured empty suffix the lookup never fails. */
  lemma EmptySuffixNeverFails(hosts: HostTable, hostname: string)
    requires "" in hosts
    ensures Resolve(hosts, hostname).Address?
  {
    assert HasSuffix(hostname, "");
  }
}
