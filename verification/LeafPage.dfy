/** The configuration of a B-tree, and the sizes of its entries. */
module LeafPage {
  import opened Messages
  import opened Lookup
  import opened Slotted

  const LEAF_ENTRY := 6    // sizeof(leaf_entry), without key and message
  const INDEX_ENTRY := 23  // sizeof(index_entry), without the pivot

  /** `keyLength` is the number of bytes of a key. */
  datatype TreeConfig = TreeConfig(pageSize: nat, keyLength: Key -> nat, data: DataConfig) {
    function MaxInlineKey(): nat { pageSize / 8 }

    function MaxInlineMessage(): nat { 35 * pageSize / 100 }

    /** leaf_entry_required_capacity, and sizeof_leaf_entry of a stored tuple. */
    function LeafLayout(): Layout<Tuple> {
      Layout(pageSize, LEAF_ENTRY, (t: Tuple) => LeafBytes(t))
    }

    function LeafBytes(t: Tuple): nat {
      keyLength(t.key) + MessageLength(t.msg)
    }

    /** A page has at least 4096 bytes; this implies the check of btree_config_init. */
    ghost predicate Valid() {
      pageSize >= 4096
    }
  }

  lemma ConfigCheckHolds(cfg: TreeConfig)
    requires cfg.Valid()
    ensures LEAF_ENTRY + cfg.MaxInlineKey() + cfg.MaxInlineMessage() + TABLE_ENTRY < (cfg.pageSize - HEADER) / 2
  {
  }

  function MessageLength(m: Message): nat {
    if m.Delete? then 0 else |m.data|
  }

  /** The limits that btree_insert checks. */
  predicate WithinLimits(cfg: TreeConfig, t: Tuple) {
    cfg.keyLength(t.key) <= cfg.MaxInlineKey() && MessageLength(t.msg) <= cfg.MaxInlineMessage()
  }

  ghost predicate AllWithinLimits(cfg: TreeConfig, tuples: seq<Tuple>) {
    forall i | 0 <= i < |tuples| :: WithinLimits(cfg, tuples[i])
  }
}
