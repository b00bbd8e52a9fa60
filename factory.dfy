/** The provider registry of the AI package (`factory`): names mapped to
    providers, each able to build a client from a token. The provider's own
    `CreateClient` is foreign code and is carried as a function. */
module Registry {
  import opened Common

  /** A provider, reduced to the one operation the registry calls. */
  datatype Provider<C> = Provider(createClient: string -> Result<C, string>)

  /** The error of CreateClient for a name nobody registered. */
  function NotRegistered(name: string): string {
    "provider '" + name + "' not registered"
  }

  /** No two positions of a list hold the same name. */
  predicate Distinct(names: seq<string>) {
    forall i, j :: 0 <= i < j < |names| ==> names[i] != names[j]
  }

  class Factory<C> {
    var providers: map<string, Provider<C>>

    /** NewFactory: an empty registry. */
    constructor ()
      ensures providers == map[]
    {
      providers := map[];
    }

    /** CreateClient: an unregistered name fails without reaching any
        provider; a registered one hands the token to that provider. */
    method CreateClient(provider: string, token: string) returns (r: Result<C, string>)
      ensures provider !in providers ==> r == Failure(NotRegistered(provider))
      ensures provider in providers ==> r == providers[provider].createClient(token)
    {
      if provider !in providers {
        return Failure(NotRegistered(provider));
      }
      var p := providers[provider];
      r := p.createClient(token);
    }

    /** RegisterProvider: the name now maps to the provider, replacing any
        earlier one; no other name changes. */
    method RegisterProvider(name: string, provider: Provider<C>)
      modifies this
      ensures providers == old(providers)[name := provider]
      ensures forall n :: n != name ==> (n in providers <==> n in old(providers))
    {
      providers := providers[name := provider];
    }

    /** ListProviders: every registered name exactly once, in whatever order
        the map is walked (the choice stands for Go's unspecified map order). */
    method ListProviders() returns (names: seq<string>)
      ensures forall n :: n in names <==> n in providers
      ensures Distinct(names) && |names| == |providers|
    {
      names := [];
      var rest := providers.Keys;
      while rest != {}
        invariant rest <= providers.Keys
        invariant forall n :: n in providers <==> n in rest || n in names
        invariant forall n :: n in names ==> n !in rest
        invariant Distinct(names)
        invariant |names| + |rest| == |providers|
        decreases |rest|
      {
        var n :| n in rest;
        names := names + [n];
        rest := rest - {n};
      }
    }
  }
}
