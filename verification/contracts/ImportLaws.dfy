/** Bridge deduplication: imported serials and bridge-minted credits match one to one. */
module ImportLaws {
  import opened Common
  import opened Registry
  import opened RegistryLaws
  import opened Merkle
  import opened Bridge
  import opened World
  import opened WorldLaws
  import opened BurnLaws

  /** The admin authorizes no bridge but the bridge contract. */
  predicate BridgesTrusted(d: Deployment, tx: Tx) {
    tx.call.Direct? && tx.call.registryCall.AddBridge? ==> tx.call.registryCall.bridge == d.bridge
  }

  function Key(i: Import): (string, string) { (i.registry, i.serial) }

  /** The credits that did not come from `submit_credit`. */
  predicate IsBridgeMinted(s: RegistryState, id: nat) {
    id in s.credits && !Submitted(s.submissions, id)
  }

  /** The published imports relate keys and credits one to one, on to the whole of the
      deduplication set and all bridge-minted credits. */
  ghost predicate OneToOne(s: RegistryState, b: BridgeState) {
    && (forall i, j | 0 <= i < j < |b.imports| :: Key(b.imports[i]) != Key(b.imports[j]))
    && (forall i, j | 0 <= i < j < |b.imports| :: b.imports[i].creditId != b.imports[j].creditId)
    && (forall k :: k in b.bridged <==> exists i | 0 <= i < |b.imports| :: Key(b.imports[i]) == k)
    && (forall id: nat :: IsBridgeMinted(s, id) <==> exists i | 0 <= i < |b.imports| :: b.imports[i].creditId == id)
  }

  ghost predicate ImportInv(d: Deployment, w: World) {
    && RegistryInv(w.registry) && IndexInv(w.registry) && w.registry.bridges <= {d.bridge}
    && OneToOne(w.registry, w.bridge)
  }

  lemma OtherCallsMintNothing(s: RegistryState, op: RegistryTx, id: nat)
    requires RegistryInv(s) && IndexInv(s) && !op.call.MintBridged?
    ensures IsBridgeMinted(Commit(s, op), id) <==> IsBridgeMinted(s, id)
  {
    var s' := Commit(s, op);
    StepKeepsInv(s, op);
    if id in s.credits {
      assert CreditEvolves(s, s', id);
    } else {
      NewCreditsAreSubmitted(s, op, id);
    }
  }

  lemma NewCreditsAreSubmitted(s: RegistryState, op: RegistryTx, id: nat)
    requires id !in s.credits && !op.call.MintBridged? && RegistryInv(s)
    ensures !IsBridgeMinted(Commit(s, op), id)
  {
    if IsAdminCall(op.call) {
      AdminEffect(s, op);
    } else if s.Perform(op.env, op.call).Ok? {
      var s' := Commit(s, op);
      match op.call {
        case SubmitCredit(issuer, _, _) => SubmittedAppend(s.submissions, Submission(s.counter + 1, issuer));
        case ApproveAndMint(v, k, text) =>
          VoteCreatesNothing(s, op.env, v, k, text, true, s', s.ApproveAndMint(op.env, v, k, text).value.1);
        case RejectCredit(v, k, text) =>
          VoteCreatesNothing(s, op.env, v, k, text, false, s', s.RejectCredit(op.env, v, k, text).value.1);
        case TransferCredit(_, _, _) =>
        case MarkRetired(_, _) =>
      }
    }
  }

  lemma VoteCreatesNothing(s: RegistryState, env: Env, verifier: Address, id: nat, text: string, approve: bool,
                           s': RegistryState, b: bool)
    requires Ok((s', b)) == CastVote(s, env, verifier, id, text, approve)
    ensures s'.credits.Keys == s.credits.Keys
  {
    VoteShape(s, env, verifier, id, text, approve, s', b);
  }

  lemma MintedByBridge(s: RegistryState, env: Env, bridge: Address, to: Address, m: Credit, s': RegistryState, id: nat)
    requires RegistryInv(s) && IndexInv(s) && s.MintBridged(env, bridge, to, m) == Ok((s', s.counter + 1))
    ensures IsBridgeMinted(s', id) <==> IsBridgeMinted(s, id) || id == s.counter + 1
  {
    MintKeepsInv(s, env, bridge, to, m, s', s.counter + 1);
  }

  lemma BridgesChange(s: RegistryState, tx: RegistryTx)
    ensures Commit(s, tx).bridges <= s.bridges + (if tx.call.AddBridge? then {tx.call.bridge} else {})
  {
    if IsAdminCall(tx.call) {
      match tx.call {
        case UpdateConfig(_, _, _, _, _, _) =>
        case AddVerifier(_, _) =>
        case RemoveVerifier(_, _) =>
        case AddBridge(_, _) =>
        case RemoveBridge(_, _) =>
        case AddRetirer(_, _) =>
        case RemoveRetirer(_, _) =>
      }
    } else {
      match tx.call {
        case ApproveAndMint(_, _, _) =>
        case RejectCredit(_, _, _) =>
        case TransferCredit(_, _, _) =>
        case MarkRetired(_, _) =>
        case SubmitCredit(_, _, _) =>
        case MintBridged(_, _, _) =>
      }
    }
  }

  lemma ImportAppend(s: RegistryState, b: BridgeState, s': RegistryState, last: Import)
    requires OneToOne(s, b) && Key(last) !in b.bridged && !IsBridgeMinted(s, last.creditId)
    requires forall id: nat :: IsBridgeMinted(s', id) <==> IsBridgeMinted(s, id) || id == last.creditId
    ensures OneToOne(s', b.(bridged := b.bridged + {Key(last)}, imports := b.imports + [last]))
  {
    var imports := b.imports + [last];
    assert imports[|b.imports|] == last;
    assert forall i | 0 <= i < |b.imports| :: imports[i] == b.imports[i];
    forall k | k in b.bridged ensures exists i | 0 <= i < |imports| :: Key(imports[i]) == k {
      var i :| 0 <= i < |b.imports| && Key(b.imports[i]) == k;
      assert Key(imports[i]) == k;
    }
    forall id: nat | IsBridgeMinted(s, id) ensures exists i | 0 <= i < |imports| :: imports[i].creditId == id {
      var i :| 0 <= i < |b.imports| && b.imports[i].creditId == id;
      assert imports[i].creditId == id;
    }
    forall i | 0 <= i < |b.imports| ensures Key(imports[i]) != Key(last) && imports[i].creditId != last.creditId {
      assert Key(b.imports[i]) in b.bridged && IsBridgeMinted(s, b.imports[i].creditId);
    }
  }

  lemma BridgeInKeepsImports(d: Deployment, w: World, tx: Tx)
    requires ImportInv(d, w) && tx.call.BridgeIn? && Step(d, w, tx).Ok?
    ensures OneToOne(Apply(d, w, tx).registry, Apply(d, w, tx).bridge)
  {
    var s, s' := w.registry, Apply(d, w, tx).registry;
    var c := tx.call;
    var env := tx.env.CallFrom(d.bridge);
    assert s.MintBridged(env, d.bridge, c.bridger, c.metadata) == Ok((s', s.counter + 1));
    forall id: nat ensures IsBridgeMinted(s', id) <==> IsBridgeMinted(s, id) || id == s.counter + 1 {
      MintedByBridge(s, env, d.bridge, c.bridger, c.metadata, s', id);
    }
    ImportAppend(s, w.bridge, s', Import(c.source, c.serial, s.counter + 1));
  }

  /** Other transactions mint nothing through the bridge, import nothing, and authorize no
      other bridge. */
  lemma OtherTxKeepsImports(d: Deployment, w: World, tx: Tx)
    requires ImportInv(d, w) && SignedByUsers(d, tx) && BridgesTrusted(d, tx)
    requires !tx.call.BridgeIn?
    ensures OneToOne(Apply(d, w, tx).registry, Apply(d, w, tx).bridge)
  {
    var ops, w' := RegistryOps(d, w, tx), Apply(d, w, tx);
    OpsExplainRegistry(d, w, tx);
    OtherTxMintsNothing(d, w, tx);
    forall id: nat ensures IsBridgeMinted(w'.registry, id) <==> IsBridgeMinted(w.registry, id) {
      OpsMintNothing(w.registry, ops, id);
    }
  }

  lemma OtherTxMintsNothing(d: Deployment, w: World, tx: Tx)
    requires w.registry.bridges <= {d.bridge} && SignedByUsers(d, tx) && !tx.call.BridgeIn?
    ensures forall i | 0 <= i < |RegistryOps(d, w, tx)| :: !RegistryOps(d, w, tx)[i].call.MintBridged?
    ensures Apply(d, w, tx).bridge.imports == w.bridge.imports && Apply(d, w, tx).bridge.bridged == w.bridge.bridged
  {
  }

  lemma {:induction false} OpsMintNothing(s: RegistryState, ops: seq<RegistryTx>, id: nat)
    requires RegistryInv(s) && IndexInv(s) && forall i | 0 <= i < |ops| :: !ops[i].call.MintBridged?
    ensures IsBridgeMinted(RunRegistry(s, ops), id) <==> IsBridgeMinted(s, id)
    decreases |ops|
  {
    if ops != [] {
      var n := |ops| - 1;
      OpsMintNothing(s, ops[..n], id);
      RunKeepsInv(s, ops[..n]);
      OtherCallsMintNothing(RunRegistry(s, ops[..n]), ops[n], id);
    }
  }

  lemma TxKeepsBridges(d: Deployment, w: World, tx: Tx)
    requires w.registry.bridges <= {d.bridge} && BridgesTrusted(d, tx)
    ensures Apply(d, w, tx).registry.bridges <= {d.bridge}
  {
    OpsExplainRegistry(d, w, tx);
    OpsKeepBridges(d, w.registry, RegistryOps(d, w, tx));
  }

  lemma {:induction false} OpsKeepBridges(d: Deployment, s: RegistryState, ops: seq<RegistryTx>)
    requires s.bridges <= {d.bridge}
    requires forall i | 0 <= i < |ops| :: ops[i].call.AddBridge? ==> ops[i].call.bridge == d.bridge
    ensures RunRegistry(s, ops).bridges <= {d.bridge}
    decreases |ops|
  {
    if ops != [] {
      OpsKeepBridges(d, s, ops[..|ops| - 1]);
      BridgesChange(RunRegistry(s, ops[..|ops| - 1]), ops[|ops| - 1]);
    }
  }

  /** In every run with one authorized bridge, imported (registry, serial) keys and
      bridge-minted credits correspond one to one. */
  lemma {:induction false} ImportsAreABijection(d: Deployment, w: World, txs: seq<Tx>)
    requires ImportInv(d, w)
    requires forall i | 0 <= i < |txs| :: SignedByUsers(d, txs[i]) && BridgesTrusted(d, txs[i])
    ensures ImportInv(d, Run(d, w, txs))
    decreases |txs|
  {
    if txs != [] {
      var front, tx := txs[..|txs| - 1], txs[|txs| - 1];
      assert front + [tx] == txs;
      ImportsAreABijection(d, w, front);
      TxKeepsImports(d, Run(d, w, front), tx);
      RunSnoc(d, w, front, tx);
    }
  }

  lemma TxKeepsImports(d: Deployment, w: World, tx: Tx)
    requires ImportInv(d, w) && SignedByUsers(d, tx) && BridgesTrusted(d, tx)
    ensures ImportInv(d, Apply(d, w, tx))
  {
    RegistryOverRuns(d, w, [tx]);
    assert [tx][..0] == [] && Run(d, w, [tx]) == Apply(d, w, tx);
    TxKeepsBridges(d, w, tx);
    if tx.call.BridgeIn? && Step(d, w, tx).Ok? {
      BridgeInKeepsImports(d, w, tx);
    } else if !tx.call.BridgeIn? {
      OtherTxKeepsImports(d, w, tx);
    }
  }

  lemma GenesisImports(d: Deployment, admin: Address, threshold: nat, quorum: nat, tokens: map<(Address, Address), int>)
    requires 1 <= threshold <= quorum
    ensures ImportInv(d, Genesis(admin, threshold, quorum, tokens))
  {
    InitialisedInv(admin, threshold, quorum);
  }

  lemma {:induction false} KeysAreNeverForgotten(d: Deployment, w: World, txs: seq<Tx>)
    ensures w.bridge.bridged <= Run(d, w, txs).bridge.bridged
    decreases |txs|
  {
    if txs != [] {
      KeysAreNeverForgotten(d, w, txs[..|txs| - 1]);
    }
  }

  /** Once a serial has been imported, no later import of it succeeds: not after a
      bridge-out, not after a new root, not with any proof or metadata. */
  lemma NoSecondImport(d: Deployment, w: World, first: Tx, txs: seq<Tx>, again: Tx)
    requires first.call.BridgeIn? && Step(d, w, first).Ok?
    requires again.call.BridgeIn? && again.call.source == first.call.source && again.call.serial == first.call.serial
    ensures Step(d, Run(d, Apply(d, w, first), txs), again).Err?
  {
    assert (first.call.source, first.call.serial) in Apply(d, w, first).bridge.bridged;
    KeysAreNeverForgotten(d, Apply(d, w, first), txs);
  }

  // ---------- What the published roots vouch for ----------

  predicate UpdatesRoot(tx: Tx, source: string) {
    tx.call.UpdateRegistryRoot? && tx.call.source == source
  }

  lemma OtherTxKeepsRoot(d: Deployment, w: World, tx: Tx, source: string, r: RegistryRoot)
    requires !UpdatesRoot(tx, source) && source in w.bridge.roots && w.bridge.roots[source] == r
    ensures source in Apply(d, w, tx).bridge.roots && Apply(d, w, tx).bridge.roots[source] == r
  {
  }

  lemma {:induction false} RootStays(d: Deployment, w: World, txs: seq<Tx>, source: string, r: RegistryRoot)
    requires source in w.bridge.roots && w.bridge.roots[source] == r
    requires forall i | 0 <= i < |txs| :: !UpdatesRoot(txs[i], source)
    ensures source in Run(d, w, txs).bridge.roots && Run(d, w, txs).bridge.roots[source] == r
    decreases |txs|
  {
    if txs != [] {
      var n := |txs| - 1;
      RootStays(d, w, txs[..n], source, r);
      OtherTxKeepsRoot(d, Run(d, w, txs[..n]), txs[n], source, r);
    }
  }

  lemma UpdatePublishes(d: Deployment, w: World, tx: Tx)
    requires tx.call.UpdateRegistryRoot? && Step(d, w, tx).Ok?
    ensures Apply(d, w, tx).bridge.roots
            == w.bridge.roots[tx.call.source := RegistryRoot(tx.call.root, tx.call.height, tx.env.now)]
  {
  }

  lemma ImportWasAccepted(d: Deployment, w: World, tx: Tx)
    requires tx.call.BridgeIn? && Step(d, w, tx).Ok?
    ensures tx.call.source in w.bridge.roots
    ensures Accepts(d.sha256, tx.call.leaf, tx.call.proof, w.bridge.roots[tx.call.source].root)
  {
  }

  /** What an import proves about its leaf. From the commit of a registry's root until that
      registry's next update, whatever else happens in between, an accepted leaf and proof
      are the value and the sibling path of a node of the tree behind the root, at the depth
      of the proof's length, unless they show a collision. */
  lemma ImportsAreProven(d: Deployment, w: World, update: Tx, txs: seq<Tx>, tx: Tx, tree: Tree) returns (path: Path)
    requires update.call.UpdateRegistryRoot? && Step(d, w, update).Ok? && update.call.root == RootOf(d.sha256, tree)
    requires forall i | 0 <= i < |txs| :: !UpdatesRoot(txs[i], update.call.source)
    requires tx.call.BridgeIn? && tx.call.source == update.call.source
    requires Step(d, Run(d, Apply(d, w, update), txs), tx).Ok?
    requires AllPathsAtLeast(tree, |tx.call.proof|) && NoCollision(d.sha256, tree, tx.call.leaf, tx.call.proof)
    ensures IsNodeAt(d.sha256, tree, path, tx.call.leaf, tx.call.proof)
  {
    var published := RegistryRoot(update.call.root, update.call.height, update.env.now);
    UpdatePublishes(d, w, update);
    RootStays(d, Apply(d, w, update), txs, update.call.source, published);
    ImportWasAccepted(d, Run(d, Apply(d, w, update), txs), tx);
    VerificationIsExact(d.sha256, tree, tx.call.leaf, tx.call.proof);
    path :| IsNodeAt(d.sha256, tree, path, tx.call.leaf, tx.call.proof);
  }

  /** For a perfect tree of depth `depth`, the node an import proves is a leaf of the tree if
      and only if the proof is as long as the tree is deep. A shorter proof imports an inner
      node; the empty one imports the root. */
  lemma ImportedNodeIsLeafIff(d: Deployment, tree: Tree, depth: nat, path: Path, leaf: Digest, proof: seq<Digest>)
    requires Perfect(tree, depth) && IsNodeAt(d.sha256, tree, path, leaf, proof)
    ensures SubtreeAt(tree, path).Leaf? <==> |proof| == depth
    ensures |proof| == depth ==> leaf in Leaves(tree)
  {
    PerfectPaths(tree, depth);
    PerfectInside(tree, depth, path);
  }

  lemma {:induction false} PerfectInside(t: Tree, depth: nat, path: Path)
    requires Perfect(t, depth) && HasPath(t, path)
    ensures |path| <= depth && Perfect(SubtreeAt(t, path), depth - |path|)
    decreases |path|
  {
    if path != [] {
      PerfectInside(Turn(t, path[|path| - 1]), depth - 1, path[..|path| - 1]);
    }
  }

  /** `bridge_in` by a signing bridger commits if and only if the registry has a root, the
      proof verifies against it, the serial is new, the metadata is valid, and the bridge is
      authorized. The leaf is not compared with serial or metadata. */
  lemma ImportSucceedsIff(d: Deployment, w: World, tx: Tx)
    requires tx.call.BridgeIn? && tx.call.bridger in tx.env.auth
    ensures Step(d, w, tx).Ok? <==>
            && tx.call.source in w.bridge.roots
            && Accepts(d.sha256, tx.call.leaf, tx.call.proof, w.bridge.roots[tx.call.source].root)
            && (tx.call.source, tx.call.serial) !in w.bridge.bridged
            && ValidMetadata(tx.call.metadata)
            && d.bridge in w.registry.bridges
  {
  }

  /** What one proof allows. After an import and any transactions that do not update the
      registry's root, another import with the same leaf and proof, for any serial and any
      metadata, commits if and only if that serial is new, its metadata are valid, and the
      bridge is still authorized. */
  lemma ProofCanBeUsedAgain(d: Deployment, w: World, first: Tx, txs: seq<Tx>, again: Tx)
    requires first.call.BridgeIn? && Step(d, w, first).Ok?
    requires forall i | 0 <= i < |txs| :: !UpdatesRoot(txs[i], first.call.source)
    requires again.call.BridgeIn? && again.call.bridger in again.env.auth
    requires again.call.source == first.call.source && again.call.leaf == first.call.leaf
             && again.call.proof == first.call.proof
    ensures var w' := Run(d, Apply(d, w, first), txs);
            Step(d, w', again).Ok? <==>
            && (again.call.source, again.call.serial) !in w'.bridge.bridged
            && ValidMetadata(again.call.metadata)
            && d.bridge in w'.registry.bridges
  {
    ImportWasAccepted(d, w, first);
    var root := w.bridge.roots[first.call.source];
    OtherTxKeepsRoot(d, w, first, first.call.source, root);
    RootStays(d, Apply(d, w, first), txs, first.call.source, root);
    ImportSucceedsIff(d, Run(d, Apply(d, w, first), txs), again);
  }

  /** Right after an import the bridge is still authorized, so a second one depends on its
      own serial and metadata only. */
  lemma ProofCanBeUsedAtOnce(d: Deployment, w: World, first: Tx, again: Tx)
    requires first.call.BridgeIn? && Step(d, w, first).Ok?
    requires again.call.BridgeIn? && again.call.bridger in again.env.auth
    requires again.call.source == first.call.source && again.call.leaf == first.call.leaf
             && again.call.proof == first.call.proof
    ensures Step(d, Apply(d, w, first), again).Ok? <==>
            && (again.call.source, again.call.serial) !in Apply(d, w, first).bridge.bridged
            && ValidMetadata(again.call.metadata)
  {
    ImportKeepsBridges(d, w, first);
    ProofCanBeUsedAgain(d, w, first, [], again);
  }

  lemma ImportKeepsBridges(d: Deployment, w: World, tx: Tx)
    requires tx.call.BridgeIn? && Step(d, w, tx).Ok?
    ensures d.bridge in Apply(d, w, tx).registry.bridges
  {
  }

  /** A run in which a root imports itself, twice: after the bridge is authorized and a root
      published, the root with the empty proof brings in two serials with their own metadata. */
  lemma RootImportsItself(d: Deployment, admin: Address, bridger: Address, root: Digest, a: Credit, b: Credit, env: Env)
    returns (txs: seq<Tx>)
    requires {admin, bridger} <= env.auth && ValidMetadata(a) && ValidMetadata(b)
    ensures forall i | 0 <= i < |txs| :: txs[i].env == env
    ensures var w := Run(d, Genesis(admin, 1, 1, map[]), txs);
            && w.bridge.imports == [Import("VCS", "1", 1), Import("VCS", "2", 2)]
            && w.registry.HasStatus(1, Active) && w.registry.credits[1].tonnes == a.tonnes
            && w.registry.HasStatus(2, Active) && w.registry.credits[2].tonnes == b.tonnes
  {
    var w0 := Genesis(admin, 1, 1, map[]);
    txs := RootPublished(d, w0, admin, root, env);
    var w1 := Run(d, w0, txs);
    var first := Tx(env, BridgeIn(bridger, "VCS", "1", root, [], a));
    var second := Tx(env, BridgeIn(bridger, "VCS", "2", root, [], b));
    RunSnoc(d, w0, txs, first);
    RunSnoc(d, w0, txs + [first], second);
    RootImport(d, w1, first);
    RootImport(d, Apply(d, w1, first), second);
    txs := txs + [first] + [second];
  }

  /** The run up to the published root. */
  lemma RootPublished(d: Deployment, w0: World, admin: Address, root: Digest, env: Env) returns (txs: seq<Tx>)
    requires w0 == Genesis(admin, 1, 1, map[]) && admin in env.auth
    ensures forall i | 0 <= i < |txs| :: txs[i].env == env
    ensures var w := Run(d, w0, txs);
            && w.registry == w0.registry.(bridges := {d.bridge})
            && w.bridge == w0.bridge.(roots := map["VCS" := RegistryRoot(root, 0, env.now)])
  {
    var authorize := Tx(env, Direct(AddBridge(admin, d.bridge)));
    var publish := Tx(env, UpdateRegistryRoot(admin, "VCS", root, 0));
    RunSnoc(d, w0, [], authorize);
    RunSnoc(d, w0, [] + [authorize], publish);
    txs := [] + [authorize] + [publish];
  }

  /** Any new serial comes in with the root as its leaf and nothing as its proof. */
  lemma RootImport(d: Deployment, w: World, tx: Tx)
    requires tx.call.BridgeIn? && tx.call.bridger in tx.env.auth && tx.call.source in w.bridge.roots
    requires tx.call.leaf == w.bridge.roots[tx.call.source].root && tx.call.proof == []
    requires (tx.call.source, tx.call.serial) !in w.bridge.bridged && ValidMetadata(tx.call.metadata)
    requires d.bridge in w.registry.bridges
    ensures var w', id := Apply(d, w, tx), w.registry.counter + 1;
            && w'.bridge == w.bridge.(bridged := w.bridge.bridged + {(tx.call.source, tx.call.serial)},
                                      imports := w.bridge.imports + [Import(tx.call.source, tx.call.serial, id)])
            && w'.registry.counter == id && w'.registry.bridges == w.registry.bridges
            && w'.registry.HasStatus(id, Active) && w'.registry.credits[id].tonnes == tx.call.metadata.tonnes
            && forall k | k != id && k in w.registry.credits ::
                 k in w'.registry.credits && w'.registry.credits[k] == w.registry.credits[k]
  {
    ImportSucceedsIff(d, w, tx);
  }
}
