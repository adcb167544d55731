/** The control plane CAs: which certificate, secret, bundle and issuer belong together, and who signs whom. */
module CADefinitions {

  datatype CADefinition = CADefinition(
    kind: string,
    certificateName: string,
    secretName: string,
    bundleSecretName: string,
    issuerName: string,
    parentIssuerName: string)

  function RootIssuerName(cluster: string): string {
    cluster + "-root"
  }

  function DefinitionsOf(cluster: string): seq<CADefinition> {
    [ CADefinition("kubernetes CA", cluster + "-ca", cluster + "-ca", cluster + "-ca-bundle",
                   cluster + "-ca", RootIssuerName(cluster)),
      CADefinition("etcd CA", cluster + "-etcd-ca", cluster + "-etcd-ca", cluster + "-etcd-ca-bundle",
                   cluster + "-etcd-ca", cluster + "-ca"),
      CADefinition("front-proxy CA", cluster + "-front-proxy-ca", cluster + "-front-proxy-ca",
                   cluster + "-front-proxy-ca-bundle", cluster + "-front-proxy-ca", cluster + "-ca")]
  }

  /** No two definitions share a name, and no CA secret is a bundle. */
  ghost predicate NamesApart(defs: seq<CADefinition>) {
    && (forall i, j :: 0 <= i < j < |defs| ==>
          && defs[i].certificateName != defs[j].certificateName
          && defs[i].bundleSecretName != defs[j].bundleSecretName
          && defs[i].issuerName != defs[j].issuerName)
    && (forall i, j :: 0 <= i < |defs| && 0 <= j < |defs| ==> defs[i].secretName != defs[j].bundleSecretName)
  }

  /** A definition is signed by the root issuer or by the issuer of a definition before it. */
  ghost predicate SignedByEarlier(defs: seq<CADefinition>, root: string) {
    && (forall i :: 0 <= i < |defs| ==> defs[i].issuerName != root)
    && (forall i :: 0 <= i < |defs| ==>
          defs[i].parentIssuerName == root || exists j :: 0 <= j < i && defs[j].issuerName == defs[i].parentIssuerName)
  }

  lemma SuffixesDiffer(prefix: string, a: string, b: string)
    requires a != b
    ensures prefix + a != prefix + b
  {
    assert (prefix + a)[|prefix|..] == a;
    assert (prefix + b)[|prefix|..] == b;
  }

  const SUFFIXES: seq<string> :=
    ["-ca", "-etcd-ca", "-front-proxy-ca", "-ca-bundle", "-etcd-ca-bundle", "-front-proxy-ca-bundle", "-root"]

  lemma NamesDiffer(cluster: string, i: nat, j: nat)
    requires i < j < |SUFFIXES|
    ensures cluster + SUFFIXES[i] != cluster + SUFFIXES[j]
  {
    var a, b := SUFFIXES[i], SUFFIXES[j];
    assert |a| != |b| || a[|a| - 1] != b[|b| - 1];
    SuffixesDiffer(cluster, a, b);
  }

  lemma DefinitionsAreWellFormed(cluster: string)
    ensures NamesApart(DefinitionsOf(cluster))
    ensures SignedByEarlier(DefinitionsOf(cluster), RootIssuerName(cluster))
  {
    var defs := DefinitionsOf(cluster);
    forall i | 0 <= i < |defs|
      ensures defs[i].certificateName == defs[i].secretName == defs[i].issuerName == cluster + SUFFIXES[i]
      ensures defs[i].bundleSecretName == cluster + SUFFIXES[i + 3] && defs[i].issuerName != RootIssuerName(cluster)
    {
      NamesDiffer(cluster, i, 6);
    }
    forall i, j | 0 <= i < j < |defs|
      ensures defs[i].certificateName != defs[j].certificateName
      ensures defs[i].bundleSecretName != defs[j].bundleSecretName
    {
      NamesDiffer(cluster, i, j);
      NamesDiffer(cluster, i + 3, j + 3);
    }
    forall i, j | 0 <= i < |defs| && 0 <= j < |defs|
      ensures defs[i].secretName != defs[j].bundleSecretName
    {
      NamesDiffer(cluster, i, j + 3);
    }
    assert defs[0].issuerName == defs[1].parentIssuerName == defs[2].parentIssuerName;
  }
}
