/**
 * The credential-to-configuration mapping of the DNS provider client.
 *
 * A flat map of credential strings (the decoded ProviderConfig secret) is turned
 * into the nested configuration block that the Terraform DNS provider expects
 * under its `update` attribute. The `rfc` credential chooses which
 * authentication fields are copied:
 *   - "3645" (GSS-TSIG): realm, username, password and keytab go into a nested
 *     one-element `gssapi` block;
 *   - "2845" (secret key transaction authentication): key_name, key_algorithm
 *     and key_secret are copied to the top level;
 *   - anything else, or no `rfc` at all: no authentication fields.
 * The server address and the transport options are copied whatever the mode.
 * Neither protocol is implemented here; only keys are chosen and copied.
 */
module DnsAuth {

  /** A configuration value: a string, or a list of nested blocks (a Go `[]any` of `map[string]any`). */
  datatype Value = Str(s: string) | Blocks(blocks: seq<map<string, Value>>)

  // General parameters.
  const KeyRfc := "rfc"
  const KeyServer := "server"
  const Update := "update"
  const KeyPort := "port"
  const KeyRetries := "retries"
  const KeyTimeout := "timeout"
  const KeyTransport := "transport"

  // GSS-TSIG (RFC 3645) parameters.
  const GssTsigRfc := "3645"
  const GssApi := "gssapi"
  const KeyTab := "keytab"
  const KeyPassword := "password"
  const KeyRealm := "realm"
  const KeyUsername := "username"

  // Secret key transaction authentication (RFC 2845) parameters.
  const KeyBasedTransactionRfc := "2845"
  const KeyAlgorithm := "key_algorithm"
  const KeyName := "key_name"
  const KeySecret := "key_secret"

  /** The credentials that go into the `gssapi` block. */
  const GssTsigKeys: set<string> := {KeyRealm, KeyUsername, KeyPassword, KeyTab}
  /** The credentials copied to the top level in secret key transaction mode. */
  const TransactionKeys: set<string> := {KeyName, KeyAlgorithm, KeySecret}
  /** The transport options, copied in every mode. */
  const OptionalKeys: set<string> := {KeyPort, KeyRetries, KeyTimeout, KeyTransport}
  /** Every key the auth configuration can hold at its top level. */
  const OutputKeys: set<string> := {KeyServer, GssApi} + TransactionKeys + OptionalKeys

  /** The authentication mode that the `rfc` credential selects. */
  datatype AuthMode = Plain | GssTsig | SecretKeyTransaction

  /** Only the two exact strings select a mode; a missing or unknown `rfc` selects none. */
  function ModeOf(creds: map<string, string>): AuthMode
  {
    if KeyRfc !in creds then Plain
    else if creds[KeyRfc] == GssTsigRfc then GssTsig
    else if creds[KeyRfc] == KeyBasedTransactionRfc then SecretKeyTransaction
    else Plain
  }

  /** `config` holds exactly those of `keys` that are credentials, each with the credential's string unchanged. */
  ghost predicate CopiedVerbatim(creds: map<string, string>, keys: set<string>, config: map<string, Value>)
  {
    && config.Keys == keys * creds.Keys
    && forall k :: k in config ==> k in creds && config[k] == Str(creds[k])
  }

  /** `server` is present iff it is a credential, with the same value. */
  ghost predicate ServerCopied(creds: map<string, string>, config: map<string, Value>)
  {
    && (KeyServer in config <==> KeyServer in creds)
    && (KeyServer in config ==> KeyServer in creds && config[KeyServer] == Str(creds[KeyServer]))
  }

  /** `gssapi` is present iff the mode is GSS-TSIG, and then it is one block of the copied GSS-TSIG credentials. */
  ghost predicate GssApiBlock(creds: map<string, string>, config: map<string, Value>)
  {
    && (GssApi in config <==> ModeOf(creds) == GssTsig)
    && (GssApi in config ==>
          && config[GssApi].Blocks?
          && |config[GssApi].blocks| == 1
          && CopiedVerbatim(creds, GssTsigKeys, config[GssApi].blocks[0]))
  }

  /** Each transaction key is present iff the mode is secret key transaction and it is a credential. */
  ghost predicate TransactionKeysCopied(creds: map<string, string>, config: map<string, Value>)
  {
    forall k :: k in TransactionKeys ==>
      && (k in config <==> ModeOf(creds) == SecretKeyTransaction && k in creds)
      && (k in config ==> k in creds && config[k] == Str(creds[k]))
  }

  /** Each transport option is present iff it is a credential, as the same string, in every mode. */
  ghost predicate OptionalKeysCopied(creds: map<string, string>, config: map<string, Value>)
  {
    forall k :: k in OptionalKeys ==>
      && (k in config <==> k in creds)
      && (k in config ==> k in creds && config[k] == Str(creds[k]))
  }

  /** Everything promised about the auth configuration built from `creds`. */
  ghost predicate IsAuthConfigFor(creds: map<string, string>, config: map<string, Value>)
  {
    && ServerCopied(creds, config)
    && GssApiBlock(creds, config)
    && TransactionKeysCopied(creds, config)
    && OptionalKeysCopied(creds, config)
    && config.Keys <= OutputKeys
  }

  /** A Go `map[string]any`: a reference whose entries are updated in place. */
  class ConfigMap {
    var entries: map<string, Value>

    constructor ()
      ensures entries == map[]
    {
      entries := map[];
    }

    /** `m[key] = v` */
    method Put(key: string, v: Value)
      modifies this
      ensures entries == old(entries)[key := v]
    {
      entries := entries[key := v];
    }
  }

  /**
   * Copies every entry of `b` into `a`, in whatever order the keys of `b` come;
   * entries of `b` win, the other entries of `a` are kept.
   */
  method MergeMaps(a: ConfigMap, b: map<string, Value>)
    modifies a
    ensures a.entries.Keys == old(a.entries).Keys + b.Keys
    ensures forall k :: k in b ==> a.entries[k] == b[k]
    ensures forall k :: k in old(a.entries) && k !in b ==> a.entries[k] == old(a.entries)[k]
  {
    var pending := b.Keys;
    while pending != {}
      invariant pending <= b.Keys
      invariant a.entries.Keys == old(a.entries).Keys + (b.Keys - pending)
      invariant forall k :: k in b && k !in pending ==> a.entries[k] == b[k]
      invariant forall k :: k in old(a.entries) && k !in b ==> a.entries[k] == old(a.entries)[k]
      decreases pending
    {
      var k :| k in pending;
      a.Put(k, b[k]);
      pending := pending - {k};
    }
  }

  /** The contents of the `gssapi` block (RFC 3645 mode). */
  method BuildGssTsigAuthConfig(creds: map<string, string>) returns (config: map<string, Value>)
    ensures CopiedVerbatim(creds, GssTsigKeys, config)
  {
    config := map[];
    if KeyRealm in creds {
      config := config[KeyRealm := Str(creds[KeyRealm])];
    }
    if KeyUsername in creds {
      config := config[KeyUsername := Str(creds[KeyUsername])];
    }
    if KeyPassword in creds {
      config := config[KeyPassword := Str(creds[KeyPassword])];
    }
    if KeyTab in creds {
      config := config[KeyTab := Str(creds[KeyTab])];
    }
  }

  /** The top-level fields of secret key transaction authentication (RFC 2845 mode). */
  method BuildSecretBasedTransactionAuthConfig(creds: map<string, string>) returns (config: map<string, Value>)
    ensures CopiedVerbatim(creds, TransactionKeys, config)
  {
    config := map[];
    if KeyName in creds {
      config := config[KeyName := Str(creds[KeyName])];
    }
    if KeyAlgorithm in creds {
      config := config[KeyAlgorithm := Str(creds[KeyAlgorithm])];
    }
    if KeySecret in creds {
      config := config[KeySecret := Str(creds[KeySecret])];
    }
  }

  /** The transport options, copied as strings without any numeric conversion. */
  method BuildOptionalConfig(creds: map<string, string>) returns (config: map<string, Value>)
    ensures CopiedVerbatim(creds, OptionalKeys, config)
  {
    config := map[];
    if KeyPort in creds {
      config := config[KeyPort := Str(creds[KeyPort])];
    }
    if KeyRetries in creds {
      config := config[KeyRetries := Str(creds[KeyRetries])];
    }
    if KeyTimeout in creds {
      config := config[KeyTimeout := Str(creds[KeyTimeout])];
    }
    if KeyTransport in creds {
      config := config[KeyTransport := Str(creds[KeyTransport])];
    }
  }

  /** The auth configuration block for `creds`. */
  method BuildAuthConfig(creds: map<string, string>) returns (config: map<string, Value>)
    ensures ServerCopied(creds, config)
    ensures GssApiBlock(creds, config)
    ensures TransactionKeysCopied(creds, config)
    ensures OptionalKeysCopied(creds, config)
    ensures config.Keys <= OutputKeys
  {
    VocabularyDisjoint();
    var m := new ConfigMap();
    if KeyServer in creds {
      m.Put(KeyServer, Str(creds[KeyServer]));
    }
    if KeyRfc in creds {
      var rfc := creds[KeyRfc];
      if rfc == GssTsigRfc {
        var authConfig := BuildGssTsigAuthConfig(creds);
        m.Put(GssApi, Blocks([authConfig]));
      } else if rfc == KeyBasedTransactionRfc {
        var transactionConfig := BuildSecretBasedTransactionAuthConfig(creds);
        // Nothing written so far is a transaction key: the merge overwrites nothing.
        assert m.entries.Keys !! transactionConfig.Keys;
        MergeMaps(m, transactionConfig);
      }
    }
    var optionalConfig := BuildOptionalConfig(creds);
    // Nor is anything written so far a transport option.
    assert m.entries.Keys !! optionalConfig.Keys;
    MergeMaps(m, optionalConfig);
    config := m.entries;
  }

  /** The provider configuration: `{ "update": [authConfig] }`. */
  method BuildProviderConfiguration(creds: map<string, string>) returns (configuration: map<string, Value>)
    ensures configuration.Keys == {Update}
    ensures configuration[Update].Blocks? && |configuration[Update].blocks| == 1
    ensures IsAuthConfigFor(creds, configuration[Update].blocks[0])
  {
    var ps := new ConfigMap();
    var authConfig := BuildAuthConfig(creds);
    ps.Put(Update, Blocks([authConfig]));
    configuration := ps.entries;
  }

  /**
   * The fixed key vocabulary: the key sets written by the three sub-builders are
   * pairwise disjoint and disjoint from `server` and `gssapi`, and no credential
   * that only selects or feeds a mode (`rfc`, the GSS-TSIG fields) is an output key.
   */
  lemma VocabularyDisjoint()
    ensures TransactionKeys !! OptionalKeys
    ensures {KeyServer, GssApi} !! TransactionKeys
    ensures {KeyServer, GssApi} !! OptionalKeys
    ensures GssTsigKeys !! OutputKeys
    ensures KeyRfc !in OutputKeys
  {
  }

  /** The verbatim copy of a key set is unique. */
  lemma CopiedVerbatimUnique(creds: map<string, string>, keys: set<string>, x: map<string, Value>, y: map<string, Value>)
    requires CopiedVerbatim(creds, keys, x) && CopiedVerbatim(creds, keys, y)
    ensures x == y
  {
  }

  /**
   * The promises about the auth configuration determine it completely: the
   * result depends only on the credentials, not on the order in which the
   * merges visit their keys.
   */
  lemma {:induction false} AuthConfigDetermined(creds: map<string, string>, x: map<string, Value>, y: map<string, Value>)
    requires IsAuthConfigFor(creds, x) && IsAuthConfigFor(creds, y)
    ensures x == y
  {
    forall k | k in OutputKeys
      ensures (k in x <==> k in y) && (k in x ==> x[k] == y[k])
    {
      if k == GssApi {
        if k in x {
          CopiedVerbatimUnique(creds, GssTsigKeys, x[k].blocks[0], y[k].blocks[0]);
        }
      } else if k in TransactionKeys {
      } else if k in OptionalKeys {
      }
    }
    assert x.Keys == y.Keys;
  }

  /**
   * In GSS-TSIG mode none of the transaction keys is written, and in secret key
   * transaction mode no `gssapi` block is: the two modes never mix, whatever
   * else the credentials hold.
   */
  lemma ModesExclusive(creds: map<string, string>, config: map<string, Value>)
    requires IsAuthConfigFor(creds, config)
    ensures GssApi in config ==> forall k :: k in TransactionKeys ==> k !in config
    ensures (exists k :: k in TransactionKeys && k in config) ==> GssApi !in config
    ensures ModeOf(creds) == Plain ==> GssApi !in config && forall k :: k in TransactionKeys ==> k !in config
  {
  }
}
