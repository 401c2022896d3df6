/** `addSignatureToMetadata` of ca/ca.go: the upsert of the signed host
    certificate into an instance's metadata items. */
module InstanceMetadata {
  import opened Wrappers

  /** The metadata key the signed certificate is written under (ca/ca.go:89). */
  const MetadataInjectedSigKey: string := "hostkeys-signed-ssh-ed25519"

  datatype Item = Item(key: string, value: string)

  /** Instance metadata as the compute API returns it: an ordered item list
      that the signer edits in place before writing it back. */
  class Metadata {
    var items: seq<Item>

    constructor (items: seq<Item>)
      ensures this.items == items
    {
      this.items := items;
    }
  }

  /** Position of the first item keyed `key`, if any. */
  function FirstWithKey(items: seq<Item>, key: string): (r: Option<nat>)
    ensures r.Some? ==> r.value < |items| && items[r.value].key == key
    ensures r.Some? ==> forall j :: 0 <= j < r.value ==> items[j].key != key
    ensures r.None? ==> forall j :: 0 <= j < |items| ==> items[j].key != key
  {
    if |items| == 0 then None
    else if items[0].key == key then Some(0)
    else match FirstWithKey(items[1..], key)
      case None => None
      case Some(k) => Some(k + 1)
  }

  /** The item list after the upsert: the first item under the signature key
      gets the new value, or a new item is appended when there is none. */
  function WithSignature(items: seq<Item>, signedKey: string): seq<Item>
  {
    match FirstWithKey(items, MetadataInjectedSigKey)
    case Some(k) => items[k := Item(MetadataInjectedSigKey, signedKey)]
    case None => items + [Item(MetadataInjectedSigKey, signedKey)]
  }

  /** After the upsert the signature key is present, and the first item under
      it holds the signed certificate. */
  lemma SignatureStored(items: seq<Item>, signedKey: string)
    ensures FirstWithKey(WithSignature(items, signedKey), MetadataInjectedSigKey).Some?
    ensures var r := WithSignature(items, signedKey);
            r[FirstWithKey(r, MetadataInjectedSigKey).value].value == signedKey
  {
    var r := WithSignature(items, signedKey);
    match FirstWithKey(items, MetadataInjectedSigKey)
    case Some(k) =>
      FirstWithKeyUnique(r, MetadataInjectedSigKey, k);
    case None =>
      FirstWithKeyUnique(r, MetadataInjectedSigKey, |items|);
  }

  /** The first occurrence is determined by its two defining properties. */
  lemma {:induction false} FirstWithKeyUnique(items: seq<Item>, key: string, k: nat)
    requires k < |items| && items[k].key == key
    requires forall j :: 0 <= j < k ==> items[j].key != key
    ensures FirstWithKey(items, key) == Some(k)
  {
    if k > 0 {
      FirstWithKeyUnique(items[1..], key, k - 1);
    }
  }

  /** When the key is already present, only the first matching item changes,
      and only in its value; the list keeps its length. */
  lemma UpdateInPlace(items: seq<Item>, signedKey: string)
    requires exists j :: 0 <= j < |items| && items[j].key == MetadataInjectedSigKey
    ensures var r := WithSignature(items, signedKey);
            && |r| == |items|
            && var k := FirstWithKey(items, MetadataInjectedSigKey).value;
               && r[k] == items[k].(value := signedKey)
               && forall j :: 0 <= j < |items| && j != k ==> r[j] == items[j]
  {
  }

  /** When the key is absent, exactly one item is appended at the end and the
      existing items are untouched. */
  lemma AppendWhenAbsent(items: seq<Item>, signedKey: string)
    requires forall j :: 0 <= j < |items| ==> items[j].key != MetadataInjectedSigKey
    ensures WithSignature(items, signedKey) == items + [Item(MetadataInjectedSigKey, signedKey)]
  {
  }

  /** Writing the same certificate twice is the same as writing it once. */
  lemma UpsertIdempotent(items: seq<Item>, signedKey: string)
    ensures WithSignature(WithSignature(items, signedKey), signedKey) == WithSignature(items, signedKey)
  {
    var r := WithSignature(items, signedKey);
    match FirstWithKey(items, MetadataInjectedSigKey)
    case Some(k) =>
      FirstWithKeyUnique(r, MetadataInjectedSigKey, k);
      assert r[k := Item(MetadataInjectedSigKey, signedKey)] == r;
    case None =>
      FirstWithKeyUnique(r, MetadataInjectedSigKey, |items|);
      assert r[|items| := Item(MetadataInjectedSigKey, signedKey)] == r;
  }

  /** `addSignatureToMetadata` (ca/ca.go:176-191): scan for the signature key and
      overwrite the first match, returning early; otherwise append a new item. */
  method AddSignatureToMetadata(metadata: Metadata, signedKey: string)
    modifies metadata
    ensures metadata.items == WithSignature(old(metadata.items), signedKey)
  {
    for i := 0 to |metadata.items|
      invariant metadata.items == old(metadata.items)
      invariant forall j :: 0 <= j < i ==> metadata.items[j].key != MetadataInjectedSigKey
    {
      if metadata.items[i].key == MetadataInjectedSigKey {
        FirstWithKeyUnique(metadata.items, MetadataInjectedSigKey, i);
        metadata.items := metadata.items[i := metadata.items[i].(value := signedKey)];
        return;
      }
    }
    AppendWhenAbsent(metadata.items, signedKey);
    metadata.items := metadata.items + [Item(MetadataInjectedSigKey, signedKey)];
  }
}
