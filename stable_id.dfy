/** The stable identifier under which a translator's table files each
    `.locres` entry: namespace, key and content hash, as `_make_id` in
    translations/build_game_locres.py builds it. */
module StableId {
  import opened Text
  import opened Hex

  /** `_make_id(namespace, key, hash_value)`: the non-empty ones of the
      stripped namespace and key, joined by `/`, then `#` and the hash in
      eight upper-case hex digits. When both parts are empty the base falls
      back first to the stripped key and then to the hex hash, so the hash
      then appears twice. */
  function MakeId(namespace: string, key: string, hash: u32): string
  {
    var ns := Strip(namespace);
    var k := Strip(key);
    var parts := (if ns != "" then [ns] else []) + (if k != "" then [k] else []);
    var base := if parts != [] then Join("/", parts) else if k != "" then k else Hex8(hash);
    base + "#" + Hex8(hash)
  }

  /** The part of an identifier before its `#` and hash suffix, given the
      stripped namespace and key. */
  function IdBase(ns: string, k: string, hash: u32): string
  {
    if ns != "" && k != "" then ns + "/" + k
    else if ns != "" then ns
    else if k != "" then k
    else Hex8(hash)
  }

  /** The four shapes an identifier takes, by which of the stripped
      namespace and key are empty. */
  lemma MakeIdCases(namespace: string, key: string, hash: u32)
    ensures MakeId(namespace, key, hash) == IdBase(Strip(namespace), Strip(key), hash) + "#" + Hex8(hash)
    ensures Strip(namespace) != "" && Strip(key) != "" ==>
              MakeId(namespace, key, hash) == Strip(namespace) + "/" + Strip(key) + "#" + Hex8(hash)
    ensures Strip(namespace) != "" && Strip(key) == "" ==>
              MakeId(namespace, key, hash) == Strip(namespace) + "#" + Hex8(hash)
    ensures Strip(namespace) == "" && Strip(key) != "" ==>
              MakeId(namespace, key, hash) == Strip(key) + "#" + Hex8(hash)
    ensures Strip(namespace) == "" && Strip(key) == "" ==>
              MakeId(namespace, key, hash) == Hex8(hash) + "#" + Hex8(hash)
  {
    var ns := Strip(namespace);
    var k := Strip(key);
    var parts := (if ns != "" then [ns] else []) + (if k != "" then [k] else []);
    if ns != "" && k != "" {
      assert parts == [ns, k];
      assert parts[..1] == [ns];
      assert Join("/", parts) == ns + "/" + k;
    } else if ns != "" {
      assert parts == [ns];
    } else if k != "" {
      assert parts == [k];
    } else {
      assert parts == [];
    }
  }

  /** Every identifier ends in `#` and eight upper-case hex digits that
      read back as the hash. */
  lemma MakeIdSuffix(namespace: string, key: string, hash: u32)
    ensures var id := MakeId(namespace, key, hash);
      && |id| >= 9
      && id[|id| - 9] == '#'
      && id[|id| - 8..] == Hex8(hash)
      && (forall i :: |id| - 8 <= i < |id| ==> IsHexDigit(id[i]))
      && ParseHex(id[|id| - 8..]) == hash
  {
    var id := MakeId(namespace, key, hash);
    var base := IdBase(Strip(namespace), Strip(key), hash);
    MakeIdCases(namespace, key, hash);
    assert id[|id| - 8..] == Hex8(hash);
    assert id[|id| - 9] == (base + "#" + Hex8(hash))[|base|];
    Hex8RoundTrip(hash);
  }

  /** Entries with different hashes never share an identifier. */
  lemma MakeIdSeparatesHashes(namespace: string, key: string, hash: u32,
                              namespace': string, key': string, hash': u32)
    requires MakeId(namespace, key, hash) == MakeId(namespace', key', hash')
    ensures hash == hash'
  {
    MakeIdSuffix(namespace, key, hash);
    MakeIdSuffix(namespace', key', hash');
  }

  /** Whitespace around the namespace or the key does not change the
      identifier. */
  lemma MakeIdIgnoresPadding(namespace: string, key: string, hash: u32)
    ensures MakeId(namespace, key, hash) == MakeId(Strip(namespace), Strip(key), hash)
  {
    StripIdempotent(namespace);
    StripIdempotent(key);
    MakeIdCases(namespace, key, hash);
    MakeIdCases(Strip(namespace), Strip(key), hash);
  }

  /** The identifier of the `Title` entry of namespace `UI` with hash
      0xABCD1234. */
  lemma MakeIdExample()
    ensures MakeId("UI", "Title", 0xABCD1234) == "UI/Title#ABCD1234"
  {
    assert IsStripped("UI") && IsStripped("Title");
    StripStripped("UI");
    StripStripped("Title");
    Hex8Example();
    MakeIdCases("UI", "Title", 0xABCD1234);
    assert "UI" + "/" + "Title" + "#" + "ABCD1234" == "UI/Title#ABCD1234";
  }
}
