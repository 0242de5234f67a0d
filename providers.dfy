/** The closed set of cloud providers, the metadata they return, and the
    dispatch from a provider name to its fetcher (`fetchMetadata`). */
module Providers {
  import opened Wrappers

  datatype Provider = Azure | Ec2 | Gce | Packet

  /** The name that selects a provider on the command line. */
  function Name(p: Provider): string {
    match p
    case Azure => "azure"
    case Ec2 => "ec2"
    case Gce => "gce"
    case Packet => "packet"
  }

  /** The names that `main` accepts: exactly the four providers. */
  predicate ValidProvider(name: string) {
    name == "azure" || name == "ec2" || name == "gce" || name == "packet"
  }

  /** The provider a name selects, if any. */
  function ParseProvider(name: string): (r: Option<Provider>)
    ensures r.Some? <==> ValidProvider(name)
    ensures r.Some? ==> Name(r.value) == name
  {
    if name == "azure" then Some(Azure)
    else if name == "ec2" then Some(Ec2)
    else if name == "gce" then Some(Gce)
    else if name == "packet" then Some(Packet)
    else None
  }

  /** Every provider is selected by its own name and by no other. */
  lemma NameRoundTrip(p: Provider, name: string)
    ensures ParseProvider(Name(p)) == Some(p)
    ensures ParseProvider(name) == Some(p) <==> name == Name(p)
  {
  }

  /** What a provider reports: attributes by name, and the SSH keys, where
      `None` (Go's nil slice) means that the provider supplies none at all. */
  datatype Metadata = Metadata(attributes: map<string, string>, sshKeys: Option<seq<string>>)

  /** A fetch yields metadata or an error with its cause. */
  type FetchResult = Result<Metadata, string>

  /** The outcome each provider's own `FetchMetadata` would have on this
      machine; the network clients themselves are not part of this model. */
  datatype Fetchers = Fetchers(azure: FetchResult, ec2: FetchResult, gce: FetchResult, packet: FetchResult)
  {
    function Of(p: Provider): FetchResult {
      match p
      case Azure => azure
      case Ec2 => ec2
      case Gce => gce
      case Packet => packet
    }
  }

  /** `fetchMetadata`: dispatches on the provider name. Callers validate the
      name first, so the `panic` of the default case cannot be reached. */
  function FetchMetadata(provider: string, fetchers: Fetchers): (r: FetchResult)
    requires ValidProvider(provider)
    ensures r == fetchers.Of(ParseProvider(provider).value)
  {
    if provider == "azure" then fetchers.azure
    else if provider == "ec2" then fetchers.ec2
    else if provider == "gce" then fetchers.gce
    else if provider == "packet" then fetchers.packet
    else assert false; fetchers.azure
  }
}
