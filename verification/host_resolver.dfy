/** HostResolver: turns the configured host into one IP address (a literal is
    used as is; otherwise DNS is asked and IPv4 is preferred over IPv6), and
    formats an address for the authority part of a URI.
    `IPAddress.TryParse` and `Dns.GetHostAddressesAsync` are parameters: the
    first as a function from text to an optional address, the second as a
    function from host name to a lookup outcome, where any exception
    (including cancellation) is `LookupFailed`. */
module HostResolver {
  import opened Wrappers

  datatype AddressFamily = InterNetwork | InterNetworkV6 | OtherFamily

  /** An address with its family and its `ToString()` text. */
  datatype IpAddress = IpAddress(family: AddressFamily, text: string)

  datatype Lookup = Addresses(addrs: seq<IpAddress>) | LookupFailed

  /** The outcome of ResolveAsync, with whether DNS was consulted. */
  datatype Resolution = Resolution(address: Option<IpAddress>, lookedUp: bool)

  /** Index `k` holds the first address of family `f`. */
  predicate IsFirstOfFamily(addrs: seq<IpAddress>, f: AddressFamily, k: int) {
    && 0 <= k < |addrs|
    && addrs[k].family == f
    && forall j :: 0 <= j < k ==> addrs[j].family != f
  }

  predicate HasFamily(addrs: seq<IpAddress>, f: AddressFamily) {
    exists k :: 0 <= k < |addrs| && addrs[k].family == f
  }

  /** `Array.Find` by family: the first address of family `f`, if any. */
  function FindFirst(addrs: seq<IpAddress>, f: AddressFamily): (r: Option<nat>)
    ensures r.Some? ==> IsFirstOfFamily(addrs, f, r.value)
    ensures r.None? <==> !HasFamily(addrs, f)
    decreases |addrs|
  {
    if |addrs| == 0 then None
    else if addrs[0].family == f then Some(0)
    else
      match FindFirst(addrs[1..], f)
      case None => None
      case Some(k) => Some(k + 1)
  }

  /** `ipv4 ?? ipv6 ?? addresses[0]` over a non-empty lookup result. */
  function ChooseAddress(addrs: seq<IpAddress>): (r: IpAddress)
    requires |addrs| > 0
    ensures r in addrs
    ensures HasFamily(addrs, InterNetwork) ==> exists k :: IsFirstOfFamily(addrs, InterNetwork, k) && r == addrs[k]
    ensures !HasFamily(addrs, InterNetwork) && HasFamily(addrs, InterNetworkV6) ==>
      exists k :: IsFirstOfFamily(addrs, InterNetworkV6, k) && r == addrs[k]
    ensures !HasFamily(addrs, InterNetwork) && !HasFamily(addrs, InterNetworkV6) ==> r == addrs[0]
  {
    match FindFirst(addrs, InterNetwork)
    case Some(k) => addrs[k]
    case None =>
      match FindFirst(addrs, InterNetworkV6)
      case Some(k) => addrs[k]
      case None => addrs[0]
  }

  /** HostResolver.ResolveAsync. */
  function Resolve(host: string, tryParse: string -> Option<IpAddress>, lookup: string -> Lookup): (r: Resolution)
    ensures tryParse(host).Some? ==> r == Resolution(tryParse(host), false)
    ensures tryParse(host).None? ==> r.lookedUp
    ensures r.address.Some? && r.lookedUp ==> lookup(host).Addresses? && r.address.value in lookup(host).addrs
    ensures tryParse(host).None? && lookup(host).Addresses? && |lookup(host).addrs| > 0 ==>
      r.address == Some(ChooseAddress(lookup(host).addrs))
    ensures r.address.None? <==> tryParse(host).None? && (lookup(host).LookupFailed? || lookup(host).addrs == [])
  {
    match tryParse(host)
    case Some(ip) => Resolution(Some(ip), false)
    case None =>
      match lookup(host)
      case LookupFailed => Resolution(None, true)
      case Addresses(addrs) =>
        if |addrs| == 0 then Resolution(None, true) else Resolution(Some(ChooseAddress(addrs)), true)
  }

  /** The choice depends only on the families in the list, not on anything
      else the lookup returns: IPv4 first, then IPv6, then the first entry. */
  lemma PreferIPv4ThenIPv6(addrs: seq<IpAddress>, k: nat)
    requires k < |addrs|
    ensures IsFirstOfFamily(addrs, InterNetwork, k) ==> ChooseAddress(addrs) == addrs[k]
    ensures IsFirstOfFamily(addrs, InterNetworkV6, k) && !HasFamily(addrs, InterNetwork) ==> ChooseAddress(addrs) == addrs[k]
  {
    if IsFirstOfFamily(addrs, InterNetwork, k) {
      var j :| IsFirstOfFamily(addrs, InterNetwork, j) && ChooseAddress(addrs) == addrs[j];
      FirstOfFamilyUnique(addrs, InterNetwork, j, k);
    }
    if IsFirstOfFamily(addrs, InterNetworkV6, k) && !HasFamily(addrs, InterNetwork) {
      var j :| IsFirstOfFamily(addrs, InterNetworkV6, j) && ChooseAddress(addrs) == addrs[j];
      FirstOfFamilyUnique(addrs, InterNetworkV6, j, k);
    }
  }

  lemma FirstOfFamilyUnique(addrs: seq<IpAddress>, f: AddressFamily, j: int, k: int)
    requires IsFirstOfFamily(addrs, f, j) && IsFirstOfFamily(addrs, f, k)
    ensures j == k
  {
  }

  /** A literal address is used as is, whatever DNS would have said. */
  lemma LiteralSkipsLookup(host: string, tryParse: string -> Option<IpAddress>, l1: string -> Lookup, l2: string -> Lookup)
    requires tryParse(host).Some?
    ensures Resolve(host, tryParse, l1) == Resolve(host, tryParse, l2)
    ensures !Resolve(host, tryParse, l1).lookedUp
  {
  }

  /** `FormatForUri`: IPv6 text in square brackets (the IP-literal form of
      section 3.2.2 of RFC 3986), every other family unchanged. */
  function FormatForUri(a: IpAddress): string {
    if a.family == InterNetworkV6 then "[" + a.text + "]" else a.text
  }

  predicate Bracketed(s: string) {
    |s| >= 2 && s[0] == '[' && s[|s| - 1] == ']'
  }

  /** Reads the address text back from the host part of a URI. */
  function UnwrapUriHost(s: string): string {
    if Bracketed(s) then s[1..|s| - 1] else s
  }

  /** The text an address prints never contains a bracket. */
  predicate PlainText(a: IpAddress) {
    forall i :: 0 <= i < |a.text| ==> a.text[i] != '[' && a.text[i] != ']'
  }

  /** Formatting brackets exactly the IPv6 addresses, and unwrapping gives
      the address text back. */
  lemma FormatForUriRoundTrip(a: IpAddress)
    requires PlainText(a)
    ensures Bracketed(FormatForUri(a)) <==> a.family == InterNetworkV6
    ensures UnwrapUriHost(FormatForUri(a)) == a.text
  {
  }
}
