/** Installing the provider's SSH keys (`writeMetadataKeys`) as one labelled
    block of a user's authorized-keys store. */
module SshKeys {
  import opened Wrappers
  import opened Strings
  import opened Providers

  /** The label of the block this program owns in every store. */
  const Label: string := "coreos-metadata"

  /** One user's authorized-keys store: block contents by label. */
  type Store = map<string, string>

  /** The stores of all users, by user name. */
  type Stores = map<string, Store>

  /** Injected failures of the store: opening it, adding the block, or
      syncing it to disk. */
  datatype KeyFaults = KeyFaults(openFails: bool, addFails: bool, syncFails: bool)

  datatype KeyError = UnknownUser(name: string) | OpenFailed | AddFailed | SyncFailed

  datatype KeyStatus = KeysOk | KeysFailed(error: KeyError)

  /** The block body: the keys joined by newlines, each key on its own line. */
  function KeyBlock(keys: seq<string>): (r: string)
    ensures keys == [] ==> r == ""
    ensures |keys| == 1 ==> r == keys[0]
  {
    Join(keys, "\n")
  }

  /** The store a user has, or the empty one that opening with `create`
      makes for a user who has none. */
  function StoreOf(stores: Stores, username: string): Store {
    if username in stores then stores[username] else map[]
  }

  /** `writeMetadataKeys`: nothing for an empty user name or absent keys;
      otherwise the user must exist, and the block under `Label` is
      replaced by the joined keys. A failing step leaves the stores as
      they were. */
  function WriteMetadataKeys(username: string, metadata: Metadata, users: set<string>,
                             faults: KeyFaults, stores: Stores): (r: (KeyStatus, Stores))
    ensures forall u :: u != username ==> (u in r.1 <==> u in stores)
    ensures forall u :: u != username && u in stores ==> r.1[u] == stores[u]
    ensures r.0.KeysFailed? ==> r.1 == stores
  {
    if username == "" || metadata.sshKeys.None? then (KeysOk, stores)
    else if username !in users then (KeysFailed(UnknownUser(username)), stores)
    else if faults.openFails then (KeysFailed(OpenFailed), stores)
    else
      var store := StoreOf(stores, username);
      var block := KeyBlock(metadata.sshKeys.value);
      if faults.addFails then (KeysFailed(AddFailed), stores)
      else if faults.syncFails then (KeysFailed(SyncFailed), stores)
      else (KeysOk, stores[username := store[Label := block]])
  }

  /** Without a user name or without keys nothing is done and nothing fails. */
  lemma KeysSkipped(username: string, metadata: Metadata, users: set<string>,
                    faults: KeyFaults, stores: Stores)
    requires username == "" || metadata.sshKeys.None?
    ensures WriteMetadataKeys(username, metadata, users, faults, stores) == (KeysOk, stores)
  {
  }

  /** When every step succeeds, the stores are left unchanged exactly when
      the install was skipped or the block already held these keys. */
  lemma KeysUnchangedIff(username: string, metadata: Metadata, users: set<string>,
                         faults: KeyFaults, stores: Stores)
    requires username == "" || username in users
    requires !faults.openFails && !faults.addFails && !faults.syncFails
    ensures var r := WriteMetadataKeys(username, metadata, users, faults, stores);
            r.1 == stores
            <==> (|| username == ""
                  || metadata.sshKeys.None?
                  || (&& username in stores && Label in stores[username]
                      && stores[username][Label] == KeyBlock(metadata.sshKeys.value)))
  {
    var r := WriteMetadataKeys(username, metadata, users, faults, stores);
    if username != "" && metadata.sshKeys.Some? {
      var block := KeyBlock(metadata.sshKeys.value);
      if username in stores && Label in stores[username] && stores[username][Label] == block {
        assert stores[username][Label := block] == stores[username];
        assert stores[username := stores[username]] == stores;
      }
      if r.1 == stores {
        assert r.1[username][Label] == block;
      }
    }
  }

  /** After a successful install the user's block holds the joined keys and
      every other block of every store is as it was. */
  lemma KeysInstalled(username: string, metadata: Metadata, users: set<string>,
                      faults: KeyFaults, stores: Stores)
    requires username != "" && metadata.sshKeys.Some?
    requires WriteMetadataKeys(username, metadata, users, faults, stores).0 == KeysOk
    ensures var after := WriteMetadataKeys(username, metadata, users, faults, stores).1;
            && username in users
            && username in after && Label in after[username]
            && after[username][Label] == KeyBlock(metadata.sshKeys.value)
            && (forall l :: l != Label ==> (l in after[username] <==> l in StoreOf(stores, username)))
            && (forall l :: l != Label && l in StoreOf(stores, username)
                            ==> after[username][l] == StoreOf(stores, username)[l])
  {
  }

  /** An empty, but present, key list installs an empty block, clearing the
      keys of an earlier run. */
  lemma EmptyKeyListClears(username: string, users: set<string>, faults: KeyFaults,
                           stores: Stores, attributes: map<string, string>)
    requires username != "" && username in users
    requires !faults.openFails && !faults.addFails && !faults.syncFails
    ensures var after := WriteMetadataKeys(username, Metadata(attributes, Some([])), users, faults, stores).1;
            username in after && Label in after[username] && after[username][Label] == ""
  {
  }

  /** Installing the same keys twice leaves the stores as one install does:
      the block is replaced, never appended to. */
  lemma KeysIdempotent(username: string, metadata: Metadata, users: set<string>,
                       faults: KeyFaults, stores: Stores)
    ensures var once := WriteMetadataKeys(username, metadata, users, faults, stores);
            WriteMetadataKeys(username, metadata, users, faults, once.1) == once
  {
    var once := WriteMetadataKeys(username, metadata, users, faults, stores);
    if once.0 == KeysOk && username != "" && metadata.sshKeys.Some? {
      var block := KeyBlock(metadata.sshKeys.value);
      var s := once.1;
      assert s[username][Label] == block;
      assert StoreOf(s, username)[Label := block] == s[username];
      assert s[username := s[username]] == s;
    }
  }

  /** The keys come back, one per line, from the block, as long as no key
      itself contains a newline. */
  lemma KeyBlockRoundTrip(keys: seq<string>)
    requires |keys| >= 1
    requires forall i :: 0 <= i < |keys| ==> '\n' !in keys[i]
    ensures Split(KeyBlock(keys), '\n') == keys
  {
    SplitJoin(keys, '\n');
  }
}
