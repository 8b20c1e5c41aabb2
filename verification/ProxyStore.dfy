/**
  Proxy keys on disk. A disk maps paths to whole files; the two store formats
  write a proxy as one or as three files, and a restart reads the tree back.
 */
module ProxyStore {
  import opened Wrappers
  import opened Types

  datatype Scheme = Bls | Ecdsa

  /** A public key or address, by the secret it is derived from. */
  datatype ProxyId = ProxyId(scheme: Scheme, secret: nat)

  /** A consensus key's signature over the delegation to a proxy. */
  datatype Signature = Signature(signedWith: nat, delegator: Pubkey, proxy: ProxyId)

  datatype Delegation = Delegation(delegator: Pubkey, proxy: ProxyId, signature: Signature)

  datatype ProxySigner = ProxySigner(secret: nat, delegation: Delegation)

  function IdOf(signer: ProxySigner): ProxyId {
    ProxyId(signer.delegation.proxy.scheme, signer.secret)
  }

  /** A signer whose delegation is about its own key, as every signer that is created. */
  predicate Coherent(signer: ProxySigner) {
    signer.delegation.proxy == IdOf(signer)
  }

  /** The delegation is signed by that consensus secret, over exactly its own delegator and proxy. */
  predicate ValidDelegation(delegation: Delegation, consensusSecret: nat) {
    && delegation.signature.signedWith == consensusSecret
    && delegation.signature.delegator == delegation.delegator && delegation.signature.proxy == delegation.proxy
  }

  datatype Kind = FileStore | Erc2335Store

  datatype Path =
    | PlainFile(moduleId: ModuleId, key: ProxyId)
    | PasswordFile(delegator: Pubkey, moduleId: ModuleId, key: ProxyId)
    | SignatureFile(delegator: Pubkey, moduleId: ModuleId, key: ProxyId)
    | KeystoreFile(delegator: Pubkey, moduleId: ModuleId, key: ProxyId)

  /** File contents; a keystore opens with the password it was encrypted under. */
  datatype Content =
    | KeyAndDelegation(secret: nat, delegation: Delegation)
    | Password(password: nat)
    | SignatureText(signature: Signature)
    | Keystore(encryptedWith: nat, cipher: nat)
    | Unreadable

  type Disk = map<Path, Content>

  /** The file that the loader starts from for a proxy. */
  function IndexPath(kind: Kind, moduleId: ModuleId, signer: ProxySigner): Path {
    match kind
    case FileStore => PlainFile(moduleId, IdOf(signer))
    case Erc2335Store => KeystoreFile(signer.delegation.delegator, moduleId, IdOf(signer))
  }

  /** The files written for a proxy, in order: for a keystore the password, the signature, then the key. */
  function Writes(kind: Kind, moduleId: ModuleId, signer: ProxySigner, password: nat): seq<(Path, Content)> {
    var id, delegator := IdOf(signer), signer.delegation.delegator;
    match kind
    case FileStore => [(PlainFile(moduleId, id), KeyAndDelegation(signer.secret, signer.delegation))]
    case Erc2335Store =>
      [ (PasswordFile(delegator, moduleId, id), Password(password)),
        (SignatureFile(delegator, moduleId, id), SignatureText(signer.delegation.signature)),
        (KeystoreFile(delegator, moduleId, id), Keystore(password, signer.secret)) ]
  }

  function Apply(disk: Disk, writes: seq<(Path, Content)>): Disk {
    if writes == [] then disk
    else
      var last := writes[|writes| - 1];
      Apply(disk, writes[..|writes| - 1])[last.0 := last.1]
  }

  // ----- loading

  predicate IsIndex(kind: Kind, p: Path) {
    match kind
    case FileStore => p.PlainFile?
    case Erc2335Store => p.KeystoreFile?
  }

  /** What the loader makes of one index file: it fails, it skips the proxy, or it gets a signer. */
  datatype Loaded = Fails | Skipped | Loads(signer: ProxySigner)

  function LoadAt(kind: Kind, disk: Disk, p: Path): Loaded
    requires p in disk && IsIndex(kind, p)
  {
    match kind
    case FileStore =>
      (match disk[p]
       case KeyAndDelegation(secret, delegation) => Loads(ProxySigner(secret, delegation))
       case _ => Fails)
    case Erc2335Store =>
      var passwordFile := PasswordFile(p.delegator, p.moduleId, p.key);
      var signatureFile := SignatureFile(p.delegator, p.moduleId, p.key);
      if !disk[p].Keystore? || passwordFile !in disk || disk[passwordFile] != Password(disk[p].encryptedWith) then Fails
      else if signatureFile !in disk then Skipped
      else if !disk[signatureFile].SignatureText? then Fails
      else
        var proxy := ProxyId(p.key.scheme, disk[p].cipher);
        Loads(ProxySigner(disk[p].cipher, Delegation(p.delegator, proxy, disk[signatureFile].signature)))
  }

  /** The keystore can be opened: its password file has the password it was encrypted with. */
  ghost predicate Opens(disk: Disk, p: Path, secret: nat) {
    && p.KeystoreFile? && p in disk
    && var passwordFile := PasswordFile(p.delegator, p.moduleId, p.key);
       exists password :: disk[p] == Keystore(password, secret) && Holds(disk, passwordFile, Password(password))
  }

  predicate Holds(disk: Disk, p: Path, content: Content) {
    p in disk && disk[p] == content
  }

  /**
    What an index file loads to. A plain file: what it says. A keystore: the
    secret in it, if it opens, with the signature next to it and the delegator of
    its directory; it is skipped if it opens and there is no signature.
   */
  lemma LoadAtIff(kind: Kind, disk: Disk, p: Path, signer: ProxySigner)
    requires p in disk && IsIndex(kind, p)
    ensures LoadAt(kind, disk, p) == Loads(signer) <==>
            if kind.FileStore? then disk[p] == KeyAndDelegation(signer.secret, signer.delegation)
            else
              && Opens(disk, p, signer.secret)
              && Holds(disk, SignatureFile(p.delegator, p.moduleId, p.key), SignatureText(signer.delegation.signature))
              && signer.delegation.delegator == p.delegator
              && signer.delegation.proxy == ProxyId(p.key.scheme, signer.secret)
    ensures LoadAt(kind, disk, p).Skipped? <==>
            && kind.Erc2335Store? && (exists secret :: Opens(disk, p, secret))
            && SignatureFile(p.delegator, p.moduleId, p.key) !in disk
  {
    if kind.Erc2335Store? && disk[p].Keystore? {
      var password, secret := disk[p].encryptedWith, disk[p].cipher;
      var passwordFile := PasswordFile(p.delegator, p.moduleId, p.key);
      assert Opens(disk, p, secret) <==> Holds(disk, passwordFile, Password(password));
    }
  }

  /** The signer behind an index file, if it loads. */
  function SignerAt(kind: Kind, disk: Disk, p: Path): Option<ProxySigner> {
    if p in disk && IsIndex(kind, p) && LoadAt(kind, disk, p).Loads? then Some(LoadAt(kind, disk, p).signer) else None
  }

  /** The in-memory proxies: the signers, and each module's keys by scheme. */
  datatype Proxies = Proxies(signers: map<ProxyId, ProxySigner>, keys: map<(ModuleId, Scheme), seq<ProxyId>>)

  function KeysOf(px: Proxies, moduleId: ModuleId, scheme: Scheme): seq<ProxyId> {
    if (moduleId, scheme) in px.keys then px.keys[(moduleId, scheme)] else []
  }

  /** Insert a signer and append its key to its module's list. */
  function AddProxy(px: Proxies, moduleId: ModuleId, scheme: Scheme, signer: ProxySigner): Proxies {
    var id := ProxyId(scheme, signer.secret);
    Proxies(px.signers[id := signer], px.keys[(moduleId, scheme) := KeysOf(px, moduleId, scheme) + [id]])
  }

  predicate NoDuplicates<T(==)>(s: seq<T>) {
    forall k, l :: 0 <= k < l < |s| ==> s[k] != s[l]
  }

  /** Every index file loads, under the name of its key and from no second file. */
  ghost predicate Good(kind: Kind, disk: Disk) {
    && (forall p :: p in disk && IsIndex(kind, p) ==>
          && SignerAt(kind, disk, p).Some?
          && Coherent(SignerAt(kind, disk, p).value)
          && p == IndexPath(kind, p.moduleId, SignerAt(kind, disk, p).value))
    && (forall p, q :: p in disk && q in disk && IsIndex(kind, p) && IsIndex(kind, q) && p.key == q.key ==> p == q)
  }

  /** px holds what the index files in paths say. */
  ghost predicate LoadedFrom(kind: Kind, disk: Disk, paths: set<Path>, px: Proxies) {
    && (forall p :: p in paths ==>
          && p in disk && IsIndex(kind, p) && SignerAt(kind, disk, p).Some?
          && p.key in px.signers && px.signers[p.key] == SignerAt(kind, disk, p).value
          && p.key in KeysOf(px, p.moduleId, p.key.scheme))
    && (forall id :: id in px.signers ==> HasPath(paths, id))
    && (forall m, s :: KeyListFrom(paths, KeysOf(px, m, s), m, s))
  }

  /** A key list without duplicates whose members all have a file in the module's directory. */
  ghost predicate KeyListFrom(paths: set<Path>, ids: seq<ProxyId>, moduleId: ModuleId, scheme: Scheme) {
    && NoDuplicates(ids)
    && forall k :: 0 <= k < |ids| ==> ids[k].scheme == scheme && HasPathIn(paths, moduleId, ids[k])
  }

  ghost predicate HasPath(paths: set<Path>, id: ProxyId) {
    exists p :: p in paths && p.key == id
  }

  ghost predicate HasPathIn(paths: set<Path>, moduleId: ModuleId, id: ProxyId) {
    exists p :: p in paths && p.key == id && p.moduleId == moduleId
  }

  function IndexPaths(kind: Kind, disk: Disk): set<Path> {
    set p | p in disk && IsIndex(kind, p)
  }

  /** px is a possible outcome of reading the whole disk. */
  ghost predicate LoadsTo(kind: Kind, disk: Disk, px: Proxies) {
    LoadedFrom(kind, disk, IndexPaths(kind, disk), px)
  }

  lemma LoadOneMore(kind: Kind, disk: Disk, paths: set<Path>, px: Proxies, p: Path)
    requires Good(kind, disk) && LoadedFrom(kind, disk, paths, px) && p in disk && IsIndex(kind, p) && p !in paths
    ensures LoadedFrom(kind, disk, paths + {p}, AddProxy(px, p.moduleId, p.key.scheme, SignerAt(kind, disk, p).value))
  {
    var signer := SignerAt(kind, disk, p).value;
    assert p.key == IdOf(signer);
    assert forall q :: q in paths ==> q.key != p.key;
    AddLoaded(kind, disk, paths, px, p, signer);
  }

  lemma AddLoaded(kind: Kind, disk: Disk, paths: set<Path>, px: Proxies, p: Path, signer: ProxySigner)
    requires LoadedFrom(kind, disk, paths, px) && p in disk && IsIndex(kind, p)
    requires SignerAt(kind, disk, p) == Some(signer) && p.key == ProxyId(p.key.scheme, signer.secret)
    requires forall q :: q in paths ==> q.key != p.key
    ensures LoadedFrom(kind, disk, paths + {p}, AddProxy(px, p.moduleId, p.key.scheme, signer))
  {
    var px' := AddProxy(px, p.moduleId, p.key.scheme, signer);
    forall id | id in px'.signers
      ensures HasPath(paths + {p}, id)
    {
      PathsGrow(paths, p, id);
    }
    forall m, s
      ensures KeyListFrom(paths + {p}, KeysOf(px', m, s), m, s)
    {
      KeyListGrows(paths, KeysOf(px, m, s), m, s, p);
    }
    forall q | q in paths + {p}
      ensures q.key in px'.signers && px'.signers[q.key] == SignerAt(kind, disk, q).value
      ensures q.key in KeysOf(px', q.moduleId, q.key.scheme)
    {
      KeysGrow(px, p.moduleId, p.key.scheme, signer, q.moduleId, q.key);
    }
  }

  lemma PathsGrow(paths: set<Path>, p: Path, id: ProxyId)
    requires HasPath(paths, id) || id == p.key
    ensures HasPath(paths + {p}, id)
  {
    if id == p.key {
      assert p in paths + {p};
    } else {
      var q :| q in paths && q.key == id;
      assert q in paths + {p};
    }
  }

  lemma KeysGrow(px: Proxies, moduleId: ModuleId, scheme: Scheme, signer: ProxySigner, m: ModuleId, id: ProxyId)
    requires id in KeysOf(px, m, id.scheme) || (m == moduleId && id == ProxyId(scheme, signer.secret))
    ensures id in KeysOf(AddProxy(px, moduleId, scheme, signer), m, id.scheme)
  {
    if m == moduleId && id == ProxyId(scheme, signer.secret) {
      var ids := KeysOf(AddProxy(px, moduleId, scheme, signer), m, scheme);
      assert ids[|ids| - 1] == id;
    }
  }

  lemma KeyListGrows(paths: set<Path>, ids: seq<ProxyId>, moduleId: ModuleId, scheme: Scheme, p: Path)
    requires KeyListFrom(paths, ids, moduleId, scheme)
    requires forall q :: q in paths ==> q.key != p.key
    ensures KeyListFrom(paths + {p}, ids, moduleId, scheme)
    ensures moduleId == p.moduleId && scheme == p.key.scheme ==>
              KeyListFrom(paths + {p}, ids + [p.key], moduleId, scheme)
  {
    forall k | 0 <= k < |ids|
      ensures HasPathIn(paths + {p}, moduleId, ids[k]) && ids[k] != p.key
    {
      assert HasPathIn(paths, moduleId, ids[k]);
      var q :| q in paths && q.key == ids[k] && q.moduleId == moduleId;
      assert q in paths + {p};
    }
    assert p in paths + {p};
  }

  // ----- any tree, whoever wrote it

  /** The key that an index file loads to, whatever its name says. */
  function LoadedKey(kind: Kind, disk: Disk, p: Path): Option<ProxyId> {
    var signer := SignerAt(kind, disk, p);
    if signer.Some? then Some(ProxyId(p.key.scheme, signer.value.secret)) else None
  }

  /** The files of a module's scheme directory that load to a key. */
  function FilesOf(kind: Kind, disk: Disk, paths: set<Path>, m: ModuleId, s: Scheme, id: ProxyId): set<Path> {
    set p | p in paths && IsFileOf(kind, disk, p, m, s, id)
  }

  /** A signer comes from one of the files that load to its key. */
  ghost predicate FromSomeFile(kind: Kind, disk: Disk, paths: set<Path>, id: ProxyId, signer: ProxySigner) {
    exists p :: p in paths && LoadedKey(kind, disk, p) == Some(id) && SignerAt(kind, disk, p) == Some(signer)
  }

  /** A module's list has a key once per file that loads to it; a key has a signer if and only if some file does. */
  ghost predicate ReadFrom(kind: Kind, disk: Disk, paths: set<Path>, px: Proxies) {
    && (forall m, s, id :: multiset(KeysOf(px, m, s))[id] == |FilesOf(kind, disk, paths, m, s, id)|)
    && (forall id :: id in px.signers ==> FromSomeFile(kind, disk, paths, id, px.signers[id]))
    && (forall p :: p in paths && LoadedKey(kind, disk, p).Some? ==> LoadedKey(kind, disk, p).value in px.signers)
  }

  /** Whether a file belongs to the module's scheme directory and loads to the key. */
  predicate IsFileOf(kind: Kind, disk: Disk, p: Path, m: ModuleId, s: Scheme, id: ProxyId) {
    p.moduleId == m && p.key.scheme == s && LoadedKey(kind, disk, p) == Some(id)
  }

  lemma FilesGrow(kind: Kind, disk: Disk, paths: set<Path>, p: Path, m: ModuleId, s: Scheme, id: ProxyId)
    requires p !in paths
    ensures |FilesOf(kind, disk, paths + {p}, m, s, id)| ==
            |FilesOf(kind, disk, paths, m, s, id)| + if IsFileOf(kind, disk, p, m, s, id) then 1 else 0
  {
    var files := FilesOf(kind, disk, paths, m, s, id);
    if IsFileOf(kind, disk, p, m, s, id) {
      assert FilesOf(kind, disk, paths + {p}, m, s, id) == files + {p};
    } else {
      assert FilesOf(kind, disk, paths + {p}, m, s, id) == files;
    }
  }

  lemma KeyCountGrows(px: Proxies, moduleId: ModuleId, scheme: Scheme, signer: ProxySigner, m: ModuleId, s: Scheme,
                      id: ProxyId)
    ensures multiset(KeysOf(AddProxy(px, moduleId, scheme, signer), m, s))[id] ==
            multiset(KeysOf(px, m, s))[id] +
            if m == moduleId && s == scheme && id == ProxyId(scheme, signer.secret) then 1 else 0
  {
    var added := AddProxy(px, moduleId, scheme, signer);
    if m == moduleId && s == scheme {
      assert KeysOf(added, m, s) == KeysOf(px, m, s) + [ProxyId(scheme, signer.secret)];
    } else {
      assert KeysOf(added, m, s) == KeysOf(px, m, s);
    }
  }

  lemma SignerAfterFile(kind: Kind, disk: Disk, paths: set<Path>, p: Path, id: ProxyId, signer: ProxySigner)
    requires FromSomeFile(kind, disk, paths, id, signer)
    ensures FromSomeFile(kind, disk, paths + {p}, id, signer)
  {
    var q :| q in paths && LoadedKey(kind, disk, q) == Some(id) && SignerAt(kind, disk, q) == Some(signer);
    assert q in paths + {p};
  }

  lemma ReadOneMore(kind: Kind, disk: Disk, paths: set<Path>, px: Proxies, p: Path)
    requires ReadFrom(kind, disk, paths, px) && p !in paths
    ensures var signer := SignerAt(kind, disk, p);
            var px' := if signer.Some? then AddProxy(px, p.moduleId, p.key.scheme, signer.value) else px;
            ReadFrom(kind, disk, paths + {p}, px')
  {
    var signer := SignerAt(kind, disk, p);
    var px' := if signer.Some? then AddProxy(px, p.moduleId, p.key.scheme, signer.value) else px;
    forall m, s, id
      ensures multiset(KeysOf(px', m, s))[id] == |FilesOf(kind, disk, paths + {p}, m, s, id)|
    {
      FilesGrow(kind, disk, paths, p, m, s, id);
      if signer.Some? {
        KeyCountGrows(px, p.moduleId, p.key.scheme, signer.value, m, s, id);
      }
    }
    forall id | id in px'.signers
      ensures FromSomeFile(kind, disk, paths + {p}, id, px'.signers[id])
    {
      if signer.Some? && id == ProxyId(p.key.scheme, signer.value.secret) {
        assert p in paths + {p};
      } else {
        SignerAfterFile(kind, disk, paths, p, id, px.signers[id]);
      }
    }
  }

  /** Reading one tree in two orders gives the same keys with the same multiplicities, and signers for the same keys. */
  lemma ReadingOrderIrrelevant(kind: Kind, disk: Disk, a: Proxies, b: Proxies)
    requires ReadFrom(kind, disk, IndexPaths(kind, disk), a) && ReadFrom(kind, disk, IndexPaths(kind, disk), b)
    ensures forall m, s :: multiset(KeysOf(a, m, s)) == multiset(KeysOf(b, m, s))
    ensures a.signers.Keys == b.signers.Keys
  {
    var paths := IndexPaths(kind, disk);
    forall m, s
      ensures multiset(KeysOf(a, m, s)) == multiset(KeysOf(b, m, s))
    {
      assert forall id :: multiset(KeysOf(a, m, s))[id] == |FilesOf(kind, disk, paths, m, s, id)|;
    }
    forall id
      ensures id in a.signers <==> id in b.signers
    {
      if id in a.signers {
        assert FromSomeFile(kind, disk, paths, id, a.signers[id]);
      }
      if id in b.signers {
        assert FromSomeFile(kind, disk, paths, id, b.signers[id]);
      }
    }
  }

  /** One index file of the tree. */
  method LoadIndexFile(kind: Kind, disk: Disk, ghost done: set<Path>, px: Proxies, p: Path)
    returns (res: Option<Proxies>)
    requires p in disk && IsIndex(kind, p) && p !in done && ReadFrom(kind, disk, done, px)
    requires Good(kind, disk) ==> LoadedFrom(kind, disk, done, px)
    ensures res.None? <==> LoadAt(kind, disk, p).Fails?
    ensures res.Some? ==> ReadFrom(kind, disk, done + {p}, res.value)
    ensures Good(kind, disk) ==> res.Some? && LoadedFrom(kind, disk, done + {p}, res.value)
  {
    assert Good(kind, disk) ==> SignerAt(kind, disk, p).Some?;
    ReadOneMore(kind, disk, done, px, p);
    match LoadAt(kind, disk, p) {
      case Fails =>
        return None;
      case Skipped =>
        return Some(px);
      case Loads(signer) =>
        if Good(kind, disk) {
          LoadOneMore(kind, disk, done, px, p);
        }
        return Some(AddProxy(px, p.moduleId, p.key.scheme, signer));
    }
  }

  lemma NothingLoaded(kind: Kind, disk: Disk)
    ensures LoadedFrom(kind, disk, {}, Proxies(map[], map[]))
    ensures ReadFrom(kind, disk, {}, Proxies(map[], map[]))
  {
  }

  /** Loading fails: there is no directory to read, or a file in it does not load. */
  ghost predicate LoadFails(kind: Kind, disk: Disk, rootExists: bool) {
    !rootExists || exists p :: p in IndexPaths(kind, disk) && LoadAt(kind, disk, p).Fails?
  }

  /**
    Reading the tree back, directories in any order: fails exactly if the store's
    directory does not exist or on a file that does not load. Any tree that loads
    yields each key once per file that loads to it; a coherent one yields exactly
    its signers.
   */
  method LoadProxies(kind: Kind, disk: Disk, rootExists: bool) returns (res: Result<Proxies, string>)
    requires IndexPaths(kind, disk) != {} ==> rootExists
    ensures res.Err? <==> LoadFails(kind, disk, rootExists)
    ensures res.Ok? ==> ReadFrom(kind, disk, IndexPaths(kind, disk), res.value)
    ensures Good(kind, disk) && rootExists ==> res.Ok? && LoadsTo(kind, disk, res.value)
  {
    if !rootExists {
      return Err("failed reading proxy dir");
    }
    var px := Proxies(map[], map[]);
    var all := IndexPaths(kind, disk);
    var remaining := all;
    ghost var done: set<Path> := {};
    NothingLoaded(kind, disk);
    while remaining != {}
      invariant done !! remaining && done + remaining == all
      invariant forall p :: p in done ==> !LoadAt(kind, disk, p).Fails?
      invariant ReadFrom(kind, disk, done, px)
      invariant Good(kind, disk) ==> LoadedFrom(kind, disk, done, px)
      decreases |remaining|
    {
      var p :| p in remaining;
      var next := LoadIndexFile(kind, disk, done, px, p);
      if next.None? {
        return Err("failed to load proxy");
      }
      px := next.value;
      done := done + {p};
      remaining := remaining - {p};
    }
    assert done == all;
    return Ok(px);
  }
}
