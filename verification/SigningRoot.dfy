/**
  Signing roots. A root is a 32-byte word or the hash of two roots; hashing is
  free of collisions by construction. Each place of the source that computes a
  root is written out on its own, as there.
 */
module SigningRoot {
  import opened Wrappers

  datatype Root = Word(value: nat) | Node(left: Root, right: Root)

  /** 2^224: a domain is a 4-byte mask followed by 28 bytes of the fork data root. */
  const TAIL: nat := 0x1_00000000_00000000_00000000_00000000_00000000_00000000_00000000

  const COMMIT_BOOST_DOMAIN: nat := 0x6d6d6f43
  const APPLICATION_BUILDER_DOMAIN: nat := 1

  datatype KnownChain = Mainnet | Holesky | Sepolia | Helder | Hoodi

  /** A chain, known or custom, by its fork version and the first 28 bytes that the hash gives for a root. */
  datatype Chain = Chain(known: Option<KnownChain>, forkVersion: nat, digest: Root -> nat)

  function ComputeDomain(chain: Chain, mask: nat): Root {
    var forkDataRoot := Node(Word(chain.forkVersion), Word(0));
    Word(mask * TAIL + chain.digest(forkDataRoot) % TAIL)
  }

  /** A module's signing id: 32 bytes of its author's choice, which may themselves be a hash. */
  type SigningId = Root

  /** The one value that is refused as a signing id. */
  const NO_SIGNING_ID: SigningId := Word(0)

  function PropCommitSigningInfo(data: Root, moduleSigningId: SigningId): Root {
    Node(data, moduleSigningId)
  }

  function SigningData(objectRoot: Root, signingDomain: Root): Root {
    Node(objectRoot, signingDomain)
  }

  /** `compute_prop_commit_signing_root`, which the local BLS signer uses. */
  function PropCommitSigningRoot(chain: Chain, objectRoot: Root, moduleSigningId: Option<SigningId>, mask: nat): Root {
    var domain := ComputeDomain(chain, mask);
    match moduleSigningId
    case Some(id) => SigningData(PropCommitSigningInfo(objectRoot, id), domain)
    case None => SigningData(objectRoot, domain)
  }

  /** The root that `EcdsaSigner::sign` computes for itself. */
  function EcdsaSigningRoot(chain: Chain, objectRoot: Root, moduleSigningId: Option<SigningId>): Root {
    var signingDomain := ComputeDomain(chain, COMMIT_BOOST_DOMAIN);
    if moduleSigningId.Some? then
      var info := PropCommitSigningInfo(objectRoot, moduleSigningId.value);
      SigningData(info, signingDomain)
    else
      SigningData(objectRoot, signingDomain)
  }

  /** The data and domain sent to Dirk, which combines them itself. */
  function DirkRequest(chain: Chain, objectRoot: Root, moduleSigningId: Option<SigningId>): (Root, Root) {
    var data := match moduleSigningId
      case Some(id) => PropCommitSigningInfo(objectRoot, id)
      case None => objectRoot;
    (data, ComputeDomain(chain, COMMIT_BOOST_DOMAIN))
  }

  /** The root against which both commitment verifiers check a signature. */
  function VerifiedRoot(chain: Chain, messageRoot: Root, moduleSigningId: SigningId): Root {
    var signingDomain := ComputeDomain(chain, COMMIT_BOOST_DOMAIN);
    SigningData(PropCommitSigningInfo(messageRoot, moduleSigningId), signingDomain)
  }

  /**
    The four computations agree on every chain, message and module, and the root
    is the hash of the message, hashed with the signing id if there is one, and
    of the word that has the mask and 28 bytes of the hashed fork version.
   */
  lemma RootsAgree(chain: Chain, objectRoot: Root, moduleSigningId: Option<SigningId>)
    ensures var root := PropCommitSigningRoot(chain, objectRoot, moduleSigningId, COMMIT_BOOST_DOMAIN);
            var (data, domain) := DirkRequest(chain, objectRoot, moduleSigningId);
            && root == EcdsaSigningRoot(chain, objectRoot, moduleSigningId)
            && root == SigningData(data, domain)
            && root == Node(if moduleSigningId.Some? then Node(objectRoot, moduleSigningId.value) else objectRoot,
                            Word(0x6d6d6f43 * TAIL + chain.digest(Node(Word(chain.forkVersion), Word(0))) % TAIL))
            && (moduleSigningId.Some? ==> root == VerifiedRoot(chain, objectRoot, moduleSigningId.value))
  {
  }

  /** The root of a fork version, with the empty genesis validators root. */
  function ForkDataRoot(forkVersion: nat): Root {
    Node(Word(forkVersion), Word(0))
  }

  /** Both chains hash alike, and 28 bytes of the hash tell their fork versions apart. */
  ghost predicate SeparateHash(chain: Chain, chain': Chain) {
    && chain.digest == chain'.digest
    && var fork, fork' := ForkDataRoot(chain.forkVersion), ForkDataRoot(chain'.forkVersion);
       chain.digest(fork) % TAIL == chain.digest(fork') % TAIL ==> fork == fork'
  }

  /** Two chains have the same domain for a mask exactly if their fork versions agree. */
  lemma DomainsSeparate(chain: Chain, chain': Chain, mask: nat)
    requires SeparateHash(chain, chain')
    ensures ComputeDomain(chain, mask) == ComputeDomain(chain', mask) <==> chain.forkVersion == chain'.forkVersion
  {
  }

  /**
    Two module signatures are over the same root exactly when fork version, data
    and module agree: what one module gets signed on one chain never verifies for
    another module or on another chain.
   */
  lemma ModuleRootsSeparate(chain: Chain, data: Root, id: SigningId, chain': Chain, data': Root, id': SigningId)
    ensures PropCommitSigningRoot(chain, data, Some(id), COMMIT_BOOST_DOMAIN) == VerifiedRoot(chain', data', id') <==>
            && ComputeDomain(chain, COMMIT_BOOST_DOMAIN) == ComputeDomain(chain', COMMIT_BOOST_DOMAIN)
            && data == data' && id == id'
    ensures SeparateHash(chain, chain') ==>
              var root := PropCommitSigningRoot(chain, data, Some(id), COMMIT_BOOST_DOMAIN);
              (root == VerifiedRoot(chain', data', id') <==>
               chain.forkVersion == chain'.forkVersion && data == data' && id == id')
  {
    if SeparateHash(chain, chain') {
      DomainsSeparate(chain, chain', COMMIT_BOOST_DOMAIN);
    }
  }

  // ----- builder messages

  /** The builder domain, written out for the known chains. */
  function BuilderDomain(chain: Chain): Root {
    match chain.known
    case Some(Mainnet) => Word(0x00000001_f5a5fd42_d16a2030_2798ef6e_d309979b_43003d23_20d9f0e8_ea9831a9)
    case Some(Holesky) => Word(0x00000001_5b83a237_59c560b2_d0c64576_e1dcfc34_ea94c498_8f3e0d9f_77f05387)
    case Some(Sepolia) => Word(0x00000001_d3010778_cd08ee51_4b08fe67_b6c503b5_10987a4c_e43f4230_6d97c67c)
    case Some(Helder) => Word(0x00000001_94c41af4_84fff796_4969e0bd_d922f82d_ff0f4be8_7a60d066_4cc9d1ff)
    case Some(Hoodi) => Word(0x00000001_71910351_1efa4f13_62ff2a50_996cccf3_29cc84cb_410c5e5c_7d351d03)
    case None => ComputeDomain(chain, APPLICATION_BUILDER_DOMAIN)
  }

  /** The root that `sign_builder_root` signs. */
  function BuilderSigningRoot(chain: Chain, objectRoot: Root): Root {
    SigningData(objectRoot, BuilderDomain(chain))
  }

  lemma DomainMask(chain: Chain, mask: nat)
    ensures ComputeDomain(chain, mask).value / TAIL == mask
  {
    var tail := chain.digest(Node(Word(chain.forkVersion), Word(0))) % TAIL;
    assert (mask * TAIL + tail) / TAIL == mask;
  }

  /** Nothing signed for a commitment or a delegation is ever a builder message, on any two chains. */
  lemma CommitNeverBuilder(chain: Chain, data: Root, id: Option<SigningId>, chain': Chain, data': Root)
    ensures PropCommitSigningRoot(chain, data, id, COMMIT_BOOST_DOMAIN) != BuilderSigningRoot(chain', data')
  {
    DomainMask(chain, COMMIT_BOOST_DOMAIN);
    DomainMask(chain', APPLICATION_BUILDER_DOMAIN);
    assert BuilderDomain(chain').value / TAIL == APPLICATION_BUILDER_DOMAIN;
  }

  // ----- delegations, which are signed in the same domain without a signing id

  /** A 48-byte public key and a 20-byte address. */
  type BlsKey = x: nat | x < HALF * HALF * HALF

  type Address = x: nat | x < ADDRESSES

  const ADDRESSES: nat := 0x1_00000000_00000000_00000000_00000000_00000000

  const HALF: nat := 0x1_00000000_00000000_00000000_00000000

  /** 2^96: an address fills the first 20 bytes of a word. */
  const PADDING: nat := 0x1_00000000_00000000_00000000

  datatype ProxyKey = BlsProxy(pubkey: BlsKey) | EcdsaProxy(address: Address)

  /** A key is two words, the second one half empty. */
  function KeyRoot(key: BlsKey): Root {
    Node(Word(key / HALF), Word(key % HALF * HALF))
  }

  function PaddedAddress(address: Address): nat {
    address * PADDING
  }

  function ProxyRoot(proxy: ProxyKey): Root {
    match proxy
    case BlsProxy(pubkey) => KeyRoot(pubkey)
    case EcdsaProxy(address) => Word(PaddedAddress(address))
  }

  function DelegationRoot(delegator: BlsKey, proxy: ProxyKey): Root {
    Node(KeyRoot(delegator), ProxyRoot(proxy))
  }

  /** The root under a delegation's signature, when it is created and when it is validated. */
  function DelegationSigningRoot(chain: Chain, delegator: BlsKey, proxy: ProxyKey): Root {
    PropCommitSigningRoot(chain, DelegationRoot(delegator, proxy), None, COMMIT_BOOST_DOMAIN)
  }

  lemma KeyRootInjective(a: BlsKey, b: BlsKey)
    ensures KeyRoot(a) == KeyRoot(b) ==> a == b
  {
    assert a == a / HALF * HALF + a % HALF;
    assert b == b / HALF * HALF + b % HALF;
  }

  /** A delegation's signature is for one delegator and one proxy. */
  lemma DelegationsSeparate(chain: Chain, delegator: BlsKey, proxy: ProxyKey, delegator': BlsKey, proxy': ProxyKey)
    ensures DelegationSigningRoot(chain, delegator, proxy) == DelegationSigningRoot(chain, delegator', proxy') <==>
            delegator == delegator' && proxy == proxy'
  {
    KeyRootInjective(delegator, delegator');
    if proxy.BlsProxy? && proxy'.BlsProxy? {
      KeyRootInjective(proxy.pubkey, proxy'.pubkey);
    }
  }

  /**
    A module's root is that of a delegation exactly when its data is the
    delegator's root and its signing id is the root of the proxy's key.
   */
  lemma ModuleRootIsDelegationIff(chain: Chain, data: Root, id: SigningId, chain': Chain, delegator: BlsKey,
                                  proxy: ProxyKey)
    ensures PropCommitSigningRoot(chain, data, Some(id), COMMIT_BOOST_DOMAIN) ==
            DelegationSigningRoot(chain', delegator, proxy) <==>
            && ComputeDomain(chain, COMMIT_BOOST_DOMAIN) == ComputeDomain(chain', COMMIT_BOOST_DOMAIN)
            && data == KeyRoot(delegator) && id == ProxyRoot(proxy)
  {
  }

  /** A signing id with the shape of a proxy's root: a padded address, or the hash of a padded key's two words. */
  predicate IsProxyRoot(id: SigningId) {
    match id
    case Word(value) => value % PADDING == 0 && value / PADDING < ADDRESSES
    case Node(Word(high), Word(low)) => high < HALF * HALF && low % HALF == 0 && low / HALF < HALF
    case _ => false
  }

  lemma ProxyRootHasShape(proxy: ProxyKey)
    ensures IsProxyRoot(ProxyRoot(proxy))
  {
    match proxy
    case BlsProxy(key) =>
      assert key == key / HALF * HALF + key % HALF;
      assert (key % HALF * HALF) / HALF == key % HALF;
    case EcdsaProxy(address) =>
      assert (address * PADDING) / PADDING == address;
  }

  /** The proxy behind a signing id of that shape. */
  lemma ShapeHasProxy(id: SigningId) returns (proxy: ProxyKey)
    requires IsProxyRoot(id)
    ensures ProxyRoot(proxy) == id
  {
    match id
    case Word(value) =>
      proxy := EcdsaProxy(value / PADDING);
    case Node(Word(high), Word(low)) =>
      KeyFromWords(high, low / HALF);
      proxy := BlsProxy(high * HALF + low / HALF);
  }

  lemma KeyFromWords(high: nat, low: nat)
    requires high < HALF * HALF && low < HALF
    ensures high * HALF + low < HALF * HALF * HALF
    ensures (high * HALF + low) / HALF == high && (high * HALF + low) % HALF == low
  {
    assert high * HALF <= (HALF * HALF - 1) * HALF;
  }
}
