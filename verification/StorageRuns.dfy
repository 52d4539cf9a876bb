/** What the file storage promises across several calls. */
module StorageRuns {
  import opened Blueprints
  import opened RoundTrip
  import opened Shapes
  import opened Blocks
  import opened NodeBlocks
  import opened FreeChains
  import opened Persistent

  /** A stored node is read back as it was exactly when it fits. */
  method PersistThenGet(p: PersistentStorage, node: Node<Value>) returns (status: Status, got: Node<Value>)
    requires p.Valid() && node.id < |p.blocks| && node.id !in p.chain && Storable(p.layout, node)
    modifies p`file, p`blocks, p`outstanding
    ensures p.Valid() && status == Done && (got == node <==> Fits(p.layout, node))
  {
    hide PersistentStorage.Valid, PersistentStorage.Nodes, Storable, Stored, Fits;
    ValidIsFramed(p);
    LayoutSound(p);
    p.Persist(node);
    StoredUnchanged(p.layout, node);
    ValidIsFramed(p);
    status, got := p.Get(node.id);
  }

  lemma ValidIsFramed(p: PersistentStorage)
    requires p.Valid()
    ensures p.Framed()
  {
  }

  lemma LayoutSound(p: PersistentStorage)
    requires p.Framed()
    ensures SoundLayout(p.layout)
  {
  }

  /** Handed out again at once after its removal, and the list is as before. */
  method RemoveThenNewId(p: PersistentStorage, id: nat) returns (status: Status, again: nat)
    requires p.Valid() && 0 < id < |p.blocks| && id !in p.chain && |p.file| + p.layout.padded <= MAX_FILE
    modifies p`file, p`freeId, p`blocks, p`chain, p`outstanding
    ensures p.Valid() && status == Done && again == id
    ensures p.chain == old(p.chain) && p.outstanding == old(p.outstanding) + {id} && p.Nodes() == old(p.Nodes()) - {id}
  {
    hide PersistentStorage.Valid, PersistentStorage.Nodes;
    ValidIsFramed(p);
    SameLength(p);
    status := p.Remove(id);
    ValidIsFramed(p);
    SameLength(p);
    status, again := p.NewId();
    ValidIsFramed(p);
  }

  lemma SameLength(p: PersistentStorage)
    requires p.Framed()
    ensures |p.file| == Start(p.layout, |p.blocks|)
  {
  }

  /** Following the list from its head meets each block that is neither stored nor handed out, once, never the
      root's, and then ends. */
  lemma FreeListIsExact(p: PersistentStorage)
    requires p.Valid()
    ensures var free := Followed(p.blocks, p.freeId, |p.blocks|);
            && (forall id: nat :: id in free <==> id < |p.blocks| && id !in p.Nodes() && id !in p.outstanding)
            && (forall i, j :: 0 <= i < j < |free| ==> free[i] != free[j])
            && ROOT_ID !in free
  {
    hide Decoded, Decodable, SoundLayout, PersistentStorage.MetadataAgrees, Mirrors, Followed, InUse;
    ChainFits(p.blocks, p.freeId, p.chain);
    FollowedIsChain(p.blocks, p.freeId, p.chain, |p.blocks|);
    ChainBelow(p.blocks, p.freeId, p.chain);
  }

  /** The nodes that the tree hands to Persist are stored unchanged: cutting a slice to its length never cuts one
      of theirs. */
  lemma TreeNodesAreStoredUnchanged(L: Layout, node: Node<Value>)
    requires SoundLayout(L) && Storable(L, node) && Roomy(node, L.b)
    requires forall i :: 0 <= i < |node.values| ==> Exact(EntryBp(L), node.values[i])
    ensures Stored(L, node) == node
  {
    hide Sound, Typed, Exact, Stored;
    StoredUnchanged(L, node);
  }
}
