/** The content-addressed object store of internal/storage/store.go: a directory of encrypted
    objects, a directory of temporary files, and staged objects that are published or discarded. */
module Storage {
  import opened Prelude
  import opened Crypto

  const MAGIC: bytes := [83, 86, 76, 49] // "SVL1"

  datatype OpenError = BadAddress | ObjectMissing | ReadFailed | Corrupt

  datatype StageError = BadLimit | TooLarge | Receive | Cipher | TempFile

  datatype CommitError = AlreadyFinalized | PublishFailed

  /** Where an injected disk error strikes. */
  datatype StageFault = NoFault | OnReceive | OnCreate | OnWrite(part: nat) | OnSync | OnClose

  /** The object file: magic, nonce, ciphertext with its tag. */
  function ObjectFile(nonce: bytes, sealed: bytes): bytes {
    MAGIC + nonce + sealed
  }

  /** The checks Open makes on the raw bytes of an object file, in order. Whatever the disk holds
      and whatever the wrapped key is, bytes that come out hash to the address asked for. */
  function OpenObject(p: Primitives, kek: bytes, raw: bytes, hash: bytes, wrapped: bytes): (r: Option<bytes>)
    ensures r.Some? ==> p.sha256(r.value) == hash
  {
    if |raw| < |MAGIC| + NONCE_SIZE || raw[..|MAGIC|] != MAGIC then None
    else
      var nonce := raw[|MAGIC|..|MAGIC| + NONCE_SIZE];
      var sealed := raw[|MAGIC| + NONCE_SIZE..];
      match UnwrapDek(p, kek, wrapped, hash)
      case None => None
      case Some(dek) =>
        match Decrypt(p, dek, nonce, sealed, hash)
        case None => None
        case Some(plaintext) => if p.sha256(plaintext) != hash then None else Some(plaintext)
  }

  /** What Stage produces for a content, as a value. */
  datatype Envelope = Envelope(hash: bytes, size: nat, wrappedDek: bytes, file: bytes)

  /** `e` is what Stage makes of `content`, with some key and nonces. */
  ghost predicate Encloses(p: Primitives, kek: bytes, e: Envelope, content: bytes) {
    && e.hash == p.sha256(content)
    && e.size == |content|
    && exists dek: bytes, wrapNonce: bytes, nonce: bytes ::
         EnclosesWith(p, kek, e, content, dek, wrapNonce, nonce)
  }

  ghost predicate EnclosesWith(p: Primitives, kek: bytes, e: Envelope, content: bytes,
                               dek: bytes, wrapNonce: bytes, nonce: bytes) {
    && |dek| == DEK_SIZE && |wrapNonce| == |nonce| == NONCE_SIZE
    && WrapDek(p, kek, dek, e.hash, wrapNonce) == Some(e.wrappedDek)
    && e.file == ObjectFile(nonce, p.seal(dek, nonce, content, e.hash))
  }

  /** What was staged opens, at its own address and under its own wrapped key, to the original. */
  lemma EnvelopeOpens(p: Primitives, kek: bytes, e: Envelope, content: bytes)
    requires p.Sound() && ValidKey(kek) && Encloses(p, kek, e, content)
    ensures OpenObject(p, kek, e.file, e.hash, e.wrappedDek) == Some(content)
  {
    var dek: bytes, wrapNonce: bytes, nonce: bytes :|
      EnclosesWith(p, kek, e, content, dek, wrapNonce, nonce);
    UnwrapUndoesWrap(p, kek, dek, e.hash, wrapNonce);
    var sealed := p.seal(dek, nonce, content, e.hash);
    assert e.file[..|MAGIC|] == MAGIC;
    assert e.file[|MAGIC|..|MAGIC| + NONCE_SIZE] == nonce;
    assert e.file[|MAGIC| + NONCE_SIZE..] == sealed;
  }

  /** Every check Open makes, and no other: the header, the wrapped key under the master key, the
      ciphertext under that key, both for this address, and the digest of what comes out. */
  lemma OpensExactly(p: Primitives, kek: bytes, raw: bytes, hash: bytes, wrapped: bytes, m: bytes)
    ensures OpenObject(p, kek, raw, hash, wrapped) == Some(m) <==>
      && |raw| >= 16 && raw[..4] == ['S' as byte, 'V' as byte, 'L' as byte, '1' as byte]
      && ValidKey(kek) && |wrapped| >= 12
      && p.open(kek, wrapped[..12], wrapped[12..], hash).Some?
      && var dek := p.open(kek, wrapped[..12], wrapped[12..], hash).value;
         ValidKey(dek) && p.open(dek, raw[4..16], raw[16..], hash) == Some(m) && p.sha256(m) == hash
  {
  }

  /** Magic, nonce, ciphertext: an object file from its first byte to its last. */
  lemma FileLayout(p: Primitives, kek: bytes, e: Envelope, content: bytes, dek: bytes, wrapNonce: bytes, nonce: bytes)
    requires EnclosesWith(p, kek, e, content, dek, wrapNonce, nonce)
    ensures |e.file| >= 16
    ensures e.file[..4] == ['S' as byte, 'V' as byte, 'L' as byte, '1' as byte]
    ensures e.file[4..16] == nonce && e.file[16..] == p.seal(dek, nonce, content, e.hash)
  {
  }

  /** An object cannot be moved to another address: whatever wrapped key goes with it, it opens
      nowhere but at its own. */
  lemma ObjectIsBound(p: Primitives, kek: bytes, e: Envelope, content: bytes, hash: bytes, wrapped: bytes)
    requires p.Authentic() && Encloses(p, kek, e, content) && hash != e.hash
    ensures OpenObject(p, kek, e.file, hash, wrapped) == None
  {
    var dek: bytes, wrapNonce: bytes, nonce: bytes :|
      EnclosesWith(p, kek, e, content, dek, wrapNonce, nonce);
    FileLayout(p, kek, e, content, dek, wrapNonce, nonce);
  }

  /** Nor does it open under a wrapped key that holds another key. */
  lemma OtherKeyFails(p: Primitives, kek: bytes, e: Envelope, content: bytes, dek: bytes, wrapNonce: bytes,
                      nonce: bytes, wrapped: bytes)
    requires p.Authentic() && EnclosesWith(p, kek, e, content, dek, wrapNonce, nonce)
    requires UnwrapDek(p, kek, wrapped, e.hash) != Some(dek)
    ensures OpenObject(p, kek, e.file, e.hash, wrapped) == None
  {
    FileLayout(p, kek, e, content, dek, wrapNonce, nonce);
  }

  function HexDigit(n: byte): (c: char)
    requires n < 16
  {
    if n < 10 then '0' + n as char else 'a' + (n - 10) as char
  }

  function Hex(data: bytes): (s: string)
    ensures |s| == 2 * |data|
  {
    if data == [] then "" else [HexDigit(data[0] / 16), HexDigit(data[0] % 16)] + Hex(data[1..])
  }

  lemma {:induction false} HexInjective(a: bytes, b: bytes)
    requires Hex(a) == Hex(b)
    ensures a == b
  {
    assert |Hex(a)| == 2 * |a| && |Hex(b)| == 2 * |b|;
    if a == [] {
    } else {
      var s, t := Hex(a), Hex(b);
      assert s[0] == HexDigit(a[0] / 16) && s[1] == HexDigit(a[0] % 16);
      assert t[0] == HexDigit(b[0] / 16) && t[1] == HexDigit(b[0] % 16);
      assert s[2..] == Hex(a[1..]) && t[2..] == Hex(b[1..]);
      HexInjective(a[1..], b[1..]);
      assert a == [a[0]] + a[1..] && b == [b[0]] + b[1..];
    }
  }

  /** Two lower-case hexadecimal digits a byte, the high one first. */
  lemma {:induction false} HexDigits(data: bytes, k: nat)
    requires k < |data|
    ensures Hex(data)[2 * k] == "0123456789abcdef"[data[k] / 16]
    ensures Hex(data)[2 * k + 1] == "0123456789abcdef"[data[k] % 16]
  {
    HexDigitIs(data[0] / 16);
    HexDigitIs(data[0] % 16);
    if k > 0 { HexDigits(data[1..], k - 1); }
  }

  lemma HexDigitIs(n: byte)
    requires n < 16
    ensures HexDigit(n) == "0123456789abcdef"[n]
  {
  }

  /** objects/<first two hex digits>/<hex>.obj below the root. */
  function ObjectPath(root: string, hash: bytes): string
    requires |hash| == HASH_SIZE
  {
    var h := Hex(hash);
    root + "/objects/" + h[..2] + "/" + h + ".obj"
  }

  /** The path from end to end: objects below the root, a directory named by the first byte, and the
      whole address with its suffix. */
  lemma PathIs(root: string, hash: bytes, k: nat)
    requires |hash| == HASH_SIZE && k < HASH_SIZE
    ensures var path, start := ObjectPath(root, hash), |root| + 12;
      && |path| == start + 64 + 4 && path[..|root| + 9] == root + "/objects/" && path[start - 1] == '/'
      && path[start..][64..] == ".obj" && path[|root| + 9..start - 1] == path[start..start + 2]
      && path[start + 2 * k] == "0123456789abcdef"[hash[k] / 16]
      && path[start + 2 * k + 1] == "0123456789abcdef"[hash[k] % 16]
  {
    var h, path := Hex(hash), ObjectPath(root, hash);
    HexDigits(hash, k);
    assert path[..|root| + 9] == root + "/objects/";
    assert path[|root| + 12..|root| + 12 + 64] == h;
    assert path[|root| + 9..|root| + 11] == h[..2];
    assert path[|root| + 12..][64..] == ".obj";
  }

  /** Distinct addresses live at distinct paths. */
  lemma PathInjective(root: string, a: bytes, b: bytes)
    requires |a| == |b| == HASH_SIZE
    requires ObjectPath(root, a) == ObjectPath(root, b)
    ensures a == b
  {
    var start := |root| + |"/objects/"| + 2 + 1;
    assert ObjectPath(root, a)[start..start + 64] == Hex(a);
    assert ObjectPath(root, b)[start..start + 64] == Hex(b);
    HexInjective(a, b);
  }

  /** The disk as a reader sees it. */
  datatype Disk = Disk(p: Primitives, root: string, kek: bytes, objects: map<string, bytes>) {
    /** What a reader of address `hash` holding `wrapped` gets. */
    ghost function Read(hash: bytes, wrapped: bytes): (r: Option<bytes>)
      ensures r.Some? ==> p.sha256(r.value) == hash
    {
      if |hash| == HASH_SIZE && ObjectPath(root, hash) in objects
      then OpenObject(p, kek, objects[ObjectPath(root, hash)], hash, wrapped)
      else None
    }
  }

  /** The bytes an address yields to the holder of a wrapped key, if any. */
  type Reader = (bytes, bytes) -> Option<bytes>

  ghost function ReaderOf(disk: Disk): Reader {
    (h, k) => disk.Read(h, k)
  }

  ghost predicate SameElsewhere(read: Reader, read': Reader, hash: bytes) {
    forall h, k :: h != hash ==> read'(h, k) == read(h, k)
  }

  /** Writing or removing one object changes what is read at its own address only. */
  lemma OneObjectChanged(disk: Disk, disk': Disk, hash: bytes)
    requires |hash| == HASH_SIZE
    requires disk'.p == disk.p && disk'.root == disk.root && disk'.kek == disk.kek
    requires forall path :: path != ObjectPath(disk.root, hash) ==>
      (path in disk'.objects <==> path in disk.objects)
      && (path in disk.objects ==> disk'.objects[path] == disk.objects[path])
    ensures SameElsewhere(ReaderOf(disk), ReaderOf(disk'), hash)
  {
    forall h: bytes, k: bytes | h != hash
      ensures disk'.Read(h, k) == disk.Read(h, k)
    {
      if |h| == HASH_SIZE && ObjectPath(disk.root, h) == ObjectPath(disk.root, hash) {
        PathInjective(disk.root, h, hash);
      }
    }
  }

  class Store {
    const p: Primitives
    const root: string
    const kek: bytes
    var objects: map<string, bytes> // path to file contents
    var temps: map<nat, bytes>      // the tmp directory
    ghost var read: Reader          // what the objects yield
    var nextTemp: nat               // os.CreateTemp never reuses a live name

    ghost predicate Valid()
      reads this
    {
      && p.Sound() && |kek| == 32
      && (forall t :: t in temps ==> t < nextTemp)
      && Linked()
    }

    /** `read` is what the objects on disk yield. */
    ghost predicate Linked()
      reads this`objects, this`read
    {
      && (forall h: bytes, k: bytes {:trigger OnDisk().Read(h, k)} :: read(h, k) == OnDisk().Read(h, k))
      && (forall h: bytes, k: bytes :: read(h, k).Some? ==> p.sha256(read(h, k).value) == h)
    }

    /** Opens the store on whatever the directory holds. */
    constructor (p: Primitives, root: string, kek: bytes, objects: map<string, bytes>, temps: map<nat, bytes>,
                 nextTemp: nat)
      requires p.Sound() && |kek| == 32 && forall t :: t in temps ==> t < nextTemp
      ensures Valid() && this.p == p && this.root == root && this.kek == kek
      ensures this.objects == objects && this.temps == temps && read == ReaderOf(OnDisk())
    {
      this.p, this.root, this.kek := p, root, kek;
      this.objects, this.temps, this.nextTemp := objects, temps, nextTemp;
      read := ReaderOf(Disk(p, root, kek, objects));
    }

    ghost function OnDisk(): Disk
      reads this`objects
    {
      Disk(p, root, kek, objects)
    }

    /** The part of Stage that writes the temporary file; it is removed again after any error. */
    method WriteTemp(nonce: bytes, sealed: bytes, fault: StageFault) returns (r: Option<nat>)
      requires Valid()
      modifies this`temps, this`nextTemp
      ensures Valid()
      ensures r.Some? <==> fault in {NoFault, OnReceive} || (fault.OnWrite? && fault.part >= 3)
      ensures r.None? ==> temps == old(temps)
      ensures r.Some? ==> r.value !in old(temps) && temps == old(temps)[r.value := ObjectFile(nonce, sealed)]
    {
      if fault == OnCreate { return None; }
      var tmp := nextTemp;
      nextTemp := nextTemp + 1;
      var parts := [MAGIC, nonce, sealed];
      temps := temps[tmp := []];
      for i := 0 to |parts|
        invariant tmp in temps && temps == old(temps)[tmp := temps[tmp]]
        invariant tmp !in old(temps) && nextTemp == tmp + 1 == old(nextTemp) + 1
        invariant i == 0 ==> temps[tmp] == []
        invariant i == 1 ==> temps[tmp] == parts[0]
        invariant i == 2 ==> temps[tmp] == parts[0] + parts[1]
        invariant i == 3 ==> temps[tmp] == parts[0] + parts[1] + parts[2]
        invariant fault.OnWrite? ==> fault.part >= i
      {
        if fault == OnWrite(i) {
          temps := temps - {tmp};
          assert temps == old(temps);
          return None;
        }
        temps := temps[tmp := temps[tmp] + parts[i]];
      }
      if fault == OnSync || fault == OnClose {
        temps := temps - {tmp};
        assert temps == old(temps);
        return None;
      }
      r := Some(tmp);
    }

    /** Receives `content`, hashes and encrypts it into a temporary file. The temporary file
        exists afterwards exactly when a staged object is returned. */
    method Stage(content: bytes, limit: int, dek: bytes, wrapNonce: bytes, nonce: bytes, fault: StageFault)
      returns (r: Result<Staged, StageError>)
      requires Valid() && |dek| == DEK_SIZE && |wrapNonce| == |nonce| == NONCE_SIZE
      modifies this`temps, this`nextTemp
      ensures Valid()
      ensures limit <= 0 ==> r == Failure(BadLimit)
      ensures limit > 0 && fault != OnReceive && |content| > limit <==> r == Failure(TooLarge)
      ensures r.Success? <==> 0 < limit && |content| <= limit
                              && (fault == NoFault || (fault.OnWrite? && fault.part >= 3))
      ensures limit > 0 ==> (r == Failure(Receive) <==> fault == OnReceive)
      ensures r.Failure? ==> temps == old(temps) && r.error in {BadLimit, TooLarge, Receive, TempFile}
      ensures r.Success? ==>
        var st := r.value;
        && fresh(st) && st.store == this && !st.done
        && Encloses(p, kek, st.envelope, content)
        && st.tmpPath !in old(temps) && temps == old(temps)[st.tmpPath := st.envelope.file]
    {
      if limit <= 0 { return Failure(BadLimit); }
      if fault == OnReceive { return Failure(Receive); }
      // One byte beyond the limit is enough to see that the stream is too long.
      var plaintext := if |content| <= limit + 1 then content else content[..limit + 1];
      if |plaintext| > limit { return Failure(TooLarge); }

      var hash := p.sha256(plaintext);
      var wrapped := WrapDek(p, kek, dek, hash, wrapNonce);
      var sealed := Encrypt(p, dek, plaintext, hash, nonce);
      if wrapped.None? || sealed.None? { return Failure(Cipher); } // does not happen: the keys have the right size

      var tmp := WriteTemp(sealed.value.0, sealed.value.1, fault);
      if tmp.None? { return Failure(TempFile); }
      var envelope := Envelope(hash, |plaintext|, wrapped.value, temps[tmp.value]);
      assert EnclosesWith(p, kek, envelope, content, dek, wrapNonce, nonce);
      var st := new Staged(this, envelope, tmp.value);
      r := Success(st);
    }

    /** Releases the plaintext only when every check passes. */
    method Open(hash: bytes, wrapped: bytes, readFails: bool) returns (r: Result<bytes, OpenError>)
      requires Valid()
      ensures r.Success? ==> p.sha256(r.value) == hash && read(hash, wrapped) == Some(r.value)
      ensures !readFails ==> (r.Success? <==> read(hash, wrapped).Some?)
      ensures r == Failure(BadAddress) <==> |hash| != HASH_SIZE
      ensures r == Failure(ObjectMissing) <==> |hash| == HASH_SIZE && ObjectPath(root, hash) !in objects
      ensures r == Failure(Corrupt) <==>
        |hash| == HASH_SIZE && ObjectPath(root, hash) in objects && !readFails && read(hash, wrapped).None?
    {
      assert read(hash, wrapped) == OnDisk().Read(hash, wrapped);
      if |hash| != HASH_SIZE { return Failure(BadAddress); }
      if ObjectPath(root, hash) !in objects { return Failure(ObjectMissing); }
      if readFails { return Failure(ReadFailed); }
      match OpenObject(p, kek, objects[ObjectPath(root, hash)], hash, wrapped) {
        case None => r := Failure(Corrupt);
        case Some(plaintext) => r := Success(plaintext);
      }
    }

    /** A missing file is not an error; any other failure leaves the object where it is. */
    method Remove(hash: bytes, fails: bool) returns (ok: bool)
      requires Valid() && |hash| == HASH_SIZE
      modifies this`objects, this`read
      ensures Valid() && SameElsewhere(old(read), read, hash)
      ensures ok <==> !(fails && ObjectPath(root, hash) in old(objects))
      ensures objects == if ok then old(objects) - {ObjectPath(root, hash)} else old(objects)
      ensures !ok ==> read == old(read)
    {
      if ObjectPath(root, hash) !in objects {
        assert objects - {ObjectPath(root, hash)} == objects;
        return true;
      }
      if fails { return false; }
      ghost var disk := OnDisk();
      objects := objects - {ObjectPath(root, hash)};
      OneObjectChanged(disk, OnDisk(), hash);
      read := ReaderOf(OnDisk());
      ok := true;
    }
  }

  /** New: refuses a key that is not an AES-256 key, then creates the two directories. */
  method NewStore(p: Primitives, root: string, kek: bytes, objects: map<string, bytes>, temps: map<nat, bytes>,
                  nextTemp: nat, mkdirFails: bool)
    returns (r: Option<Store>)
    requires p.Sound() && forall t :: t in temps ==> t < nextTemp
    ensures r.Some? <==> |kek| == 32 && !mkdirFails
    ensures r.Some? ==>
      && fresh(r.value) && r.value.Valid() && r.value.objects == objects && r.value.temps == temps
      && r.value.root == root && r.value.kek == kek && r.value.p == p
  {
    if |kek| != 32 { return None; }
    if mkdirFails { return None; }
    var store := new Store(p, root, kek, objects, temps, nextTemp);
    r := Some(store);
  }

  class Staged {
    const store: Store
    const envelope: Envelope
    const tmpPath: nat
    var done: bool

    constructor (store: Store, envelope: Envelope, tmpPath: nat)
      ensures this.store == store && this.envelope == envelope && this.tmpPath == tmpPath && !done
    {
      this.store, this.envelope, this.tmpPath, done := store, envelope, tmpPath, false;
    }

    /** While not finalized, the temporary file holds the sealed object. */
    ghost predicate Live()
      reads this, store
    {
      !done && tmpPath in store.temps && store.temps[tmpPath] == envelope.file
    }

    /** Publishes the object at its address by renaming the temporary file, at most once. The
        temporary file is gone whatever happens. */
    method Commit(fails: bool) returns (r: Option<CommitError>)
      requires store.Valid() && |envelope.hash| == HASH_SIZE && (done || Live())
      modifies this, store`temps, store`objects, store`read
      ensures store.Valid() && done
      ensures r == Some(AlreadyFinalized) <==> old(done)
      ensures !old(done) ==> (r.Some? <==> fails)
      ensures store.temps == if old(done) then old(store.temps) else old(store.temps) - {tmpPath}
      ensures store.objects == if r.None?
                               then old(store.objects)[ObjectPath(store.root, envelope.hash) := envelope.file]
                               else old(store.objects)
      ensures r.Some? ==> store.read == old(store.read)
      ensures r.None? ==>
        && SameElsewhere(old(store.read), store.read, envelope.hash)
        && forall body :: Encloses(store.p, store.kek, envelope, body)
             ==> store.read(envelope.hash, envelope.wrappedDek) == Some(body)
    {
      if done { return Some(AlreadyFinalized); }
      done := true;
      if fails {
        store.temps := store.temps - {tmpPath};
        return Some(PublishFailed);
      }
      ghost var disk := store.OnDisk();
      store.objects := store.objects[ObjectPath(store.root, envelope.hash) := store.temps[tmpPath]];
      store.temps := store.temps - {tmpPath};
      OneObjectChanged(disk, store.OnDisk(), envelope.hash);
      store.read := ReaderOf(store.OnDisk());
      forall body | Encloses(store.p, store.kek, envelope, body)
        ensures store.OnDisk().Read(envelope.hash, envelope.wrappedDek) == Some(body)
      {
        EnvelopeOpens(store.p, store.kek, envelope, body);
      }
      r := None;
    }

    /** Discards the temporary file; does nothing once finalized. */
    method Abort()
      modifies this, store`temps
      ensures done
      ensures store.temps == if old(done) then old(store.temps) else old(store.temps) - {tmpPath}
    {
      if done { return; }
      done := true;
      store.temps := store.temps - {tmpPath};
    }
  }

  /** Stage, Commit, Open gives the original bytes back, for every content within the limit, and
      leaves no temporary file and every other address as it was. */
  method StoreThenOpen(store: Store, content: bytes, limit: int, dek: bytes, wrapNonce: bytes, nonce: bytes)
    returns (r: Result<bytes, OpenError>)
    requires store.Valid() && 0 < limit && |content| <= limit
    requires |dek| == DEK_SIZE && |wrapNonce| == |nonce| == NONCE_SIZE
    modifies store
    ensures store.Valid() && r == Success(content)
    ensures store.temps == old(store.temps)
    ensures SameElsewhere(old(store.read), store.read, store.p.sha256(content))
  {
    var staged := store.Stage(content, limit, dek, wrapNonce, nonce, NoFault);
    var st := staged.value;
    var failed := st.Commit(false);
    assert store.read(st.envelope.hash, st.envelope.wrappedDek) == Some(content);
    r := store.Open(st.envelope.hash, st.envelope.wrappedDek, false);
  }
}
