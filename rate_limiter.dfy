/**
 * The key both rate limiters count requests under: the client address, with the first
 * `::ffff:` (the IPv4-mapped IPv6 prefix) taken out, so that `::ffff:127.0.0.1` and
 * `127.0.0.1` share one counter.
 */
module RateLimiter {
  import opened Wrappers
  import opened Text

  const MappedPrefix: string := "::ffff:"
  const UnknownClient: string := "unknown"

  /** `s || …` for a string that may be missing: present and non-empty. */
  predicate Given(s: Option<string>) {
    s.Some? && s.value != []
  }

  /** `req.ip || req.connection?.remoteAddress || 'unknown'`. */
  function ClientAddress(ip: Option<string>, remoteAddress: Option<string>): (r: string)
    ensures r != []
    ensures Given(ip) ==> r == ip.value
    ensures !Given(ip) && Given(remoteAddress) ==> r == remoteAddress.value
    ensures !Given(ip) && !Given(remoteAddress) ==> r == UnknownClient
  {
    if Given(ip) then ip.value
    else if Given(remoteAddress) then remoteAddress.value
    else UnknownClient
  }

  /**
   * `safeKeyGenerator`: the client address with the first occurrence of the mapped prefix
   * removed, wherever it occurs; putting the prefix back at that place gives the address.
   */
  function SafeKey(ip: Option<string>, remoteAddress: Option<string>): (r: string)
    ensures var a := ClientAddress(ip, remoteAddress);
      && (IndexOf(a, MappedPrefix).None? ==> r == a)
      && (IndexOf(a, MappedPrefix).Some? ==>
            var i := IndexOf(a, MappedPrefix).value;
            |r| == |a| - |MappedPrefix| && r[..i] + MappedPrefix + r[i..] == a)
  {
    RemoveFirst(ClientAddress(ip, remoteAddress), MappedPrefix)
  }

  /** Without an address from the request, every client shares the key `unknown`. */
  lemma AnonymousClientsShareKey(ip: Option<string>, remoteAddress: Option<string>)
    requires !Given(ip) && !Given(remoteAddress)
    ensures SafeKey(ip, remoteAddress) == UnknownClient
  {
    NoMappedPrefixAt(UnknownClient, 0);
  }

  /** A string as long as the prefix that differs from it holds no occurrence at or after `from`. */
  lemma NoMappedPrefixAt(s: string, from: nat)
    requires |s| == |MappedPrefix| && s != MappedPrefix
    ensures forall j: nat :: !OccursAt(s, MappedPrefix, j)
  {
    forall j: nat ensures !OccursAt(s, MappedPrefix, j) {
      if j == 0 {
        assert s[0..|MappedPrefix|] == s;
      }
    }
  }

  /** An address that starts with the prefix loses exactly that prefix. */
  lemma MappedAddressLosesPrefix(rest: string, remoteAddress: Option<string>)
    ensures SafeKey(Some(MappedPrefix + rest), remoteAddress) == rest
  {
    var ip := MappedPrefix + rest;
    assert ip[0..|MappedPrefix|] == MappedPrefix;
    assert OccursAt(ip, MappedPrefix, 0);
    assert ip[..0] + ip[|MappedPrefix|..] == rest;
  }

  /** An address without a colon (a plain IPv4 address) is its own key. */
  lemma PlainAddressUnchanged(ip: string, remoteAddress: Option<string>)
    requires ip != [] && ':' !in ip
    ensures SafeKey(Some(ip), remoteAddress) == ip
  {
  }

  /** The IPv4-mapped loopback address and the plain one get the same key. */
  lemma LoopbackSharesKey(remoteAddress: Option<string>)
    ensures SafeKey(Some("::ffff:127.0.0.1"), remoteAddress) == SafeKey(Some("127.0.0.1"), remoteAddress)
    ensures SafeKey(Some("127.0.0.1"), remoteAddress) == "127.0.0.1"
  {
    assert "::ffff:127.0.0.1" == MappedPrefix + "127.0.0.1";
    MappedAddressLosesPrefix("127.0.0.1", remoteAddress);
    PlainAddressUnchanged("127.0.0.1", remoteAddress);
  }

  /** Only the first occurrence goes: a doubled prefix leaves one behind. */
  lemma OnlyFirstPrefixRemoved(remoteAddress: Option<string>)
    ensures SafeKey(Some("::ffff:::ffff:1"), remoteAddress) == "::ffff:1"
  {
    assert "::ffff:::ffff:1" == MappedPrefix + "::ffff:1";
    MappedAddressLosesPrefix("::ffff:1", remoteAddress);
  }
}
