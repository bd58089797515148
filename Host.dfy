/** Splitting the Host header of a request into the domain that selects a tenant
    (main.go, splitDomainFromPort). */
module Host {
  import opened Strings

  /** splitDomainFromPort: the part of the host before its first colon, or the whole
      host when it has none (strings.Split(host, ":")[0]). */
  function SplitDomainFromPort(host: string): (domain: string)
    ensures ':' !in domain
    ensures domain <= host
    ensures |domain| == |host| || host[|domain|] == ':'
  {
    Split(host, ':')[0]
  }

  /** The three properties of SplitDomainFromPort pin its result down: the longest
      colon-free prefix of the host is unique. */
  lemma LongestColonFreePrefixIsDomain(host: string, d: string)
    requires ':' !in d && d <= host
    requires |d| == |host| || host[|d|] == ':'
    ensures d == SplitDomainFromPort(host)
  {
  }

  /** A colon-free host is its own domain. */
  lemma DomainOfColonFreeHost(host: string)
    requires ':' !in host
    ensures SplitDomainFromPort(host) == host
  {
  }

  /** "example.tld:443" yields "example.tld": the port and anything after it are dropped. */
  lemma DomainOfDomainAndPort(d: string, port: string)
    requires ':' !in d
    ensures SplitDomainFromPort(d + ":" + port) == d
  {
    SplitAfterPiece(d, port, ':');
    assert d + ":" + port == d + [':'] + port;
  }

  /** Stripping the port a second time changes nothing. */
  lemma SplitDomainFromPortIdempotent(host: string)
    ensures SplitDomainFromPort(SplitDomainFromPort(host)) == SplitDomainFromPort(host)
  {
    DomainOfColonFreeHost(SplitDomainFromPort(host));
  }

  /** An IPv6 literal is cut at its first colon: "[::1]:443" selects the domain "[". */
  lemma IPv6HostIsCutAtFirstColon()
    ensures SplitDomainFromPort("[::1]:443") == "["
  {
    var host := "[::1]:443";
    assert host[0] == '[' && host[1] == ':';
    LongestColonFreePrefixIsDomain(host, "[");
  }
}
