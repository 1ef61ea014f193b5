/** internal/remote/remote.go, the transfer of one file: uploads are plain, or AES in
    counter mode behind a salt and a nonce; downloads guess which from the first bytes. */
module Transfer {
  import opened Files
  import opened Text

  const SALT_LEN := 16
  const OVERHEAD := 32

  /** Key derivation and the keystream that key and nonce give; nothing is assumed about them. */
  datatype Cipher = Cipher(kdf: (string, seq<Byte>) -> seq<Byte>, keystream: (seq<Byte>, seq<Byte>, nat) -> Byte)

  function Stream(c: Cipher, password: string, header: seq<Byte>, i: nat): Byte
    requires |header| == OVERHEAD
  {
    c.keystream(c.kdf(password, header[..SALT_LEN]), header[SALT_LEN..], i)
  }

  function Mix(x: Byte, k: Byte): Byte { x ^ k }

  /** `data` combined with the keystream from position `from` on. */
  function Xor(c: Cipher, password: string, header: seq<Byte>, data: seq<Byte>, from: nat): (r: seq<Byte>)
    requires |header| == OVERHEAD
    ensures |r| == |data|
  {
    seq(|data|, i requires 0 <= i < |data| => Mix(data[i], Stream(c, password, header, from + i)))
  }

  /** What an encrypted upload leaves on the remote side. */
  function Encrypted(c: Cipher, password: string, header: seq<Byte>, data: seq<Byte>): seq<Byte>
    requires |header| == OVERHEAD
  {
    header + Xor(c, password, header, data, 0)
  }

  lemma XorTwice(c: Cipher, password: string, header: seq<Byte>, data: seq<Byte>, from: nat)
    requires |header| == OVERHEAD
    ensures Xor(c, password, header, Xor(c, password, header, data, from), from) == data
  {
    hide Mix, Stream;
    forall i | 0 <= i < |data|
      ensures var k := Stream(c, password, header, from + i); Mix(Mix(data[i], k), k) == data[i]
    {
      var k := Stream(c, password, header, from + i);
      MixTwice(data[i], k, k);
    }
  }

  lemma MixTwice(x: Byte, j: Byte, k: Byte)
    ensures Mix(Mix(x, j), k) == x <==> k == j
  {
    BitsTwice(x, j, k);
  }

  lemma BitsTwice(x: Byte, j: Byte, k: Byte)
    ensures (x ^ j) ^ k == x <==> k == j
  {}

  lemma XorConcat(c: Cipher, password: string, header: seq<Byte>, a: seq<Byte>, b: seq<Byte>, from: nat)
    requires |header| == OVERHEAD
    ensures Xor(c, password, header, a + b, from)
         == Xor(c, password, header, a, from) + Xor(c, password, header, b, from + |a|)
  {}

  /** `cipher.StreamWriter`: the position in the keystream moves on with every write. */
  class StreamWriter {
    const c: Cipher
    const password: string
    const header: seq<Byte>
    var pos: nat
    var out: seq<Byte>

    constructor (c: Cipher, password: string, header: seq<Byte>, out: seq<Byte>)
      requires |header| == OVERHEAD
      ensures this.c == c && this.password == password && this.header == header && this.out == out && pos == 0
    {
      this.c, this.password, this.header, this.out, pos := c, password, header, out, 0;
    }

    method Write(chunk: seq<Byte>)
      requires |header| == OVERHEAD
      modifies this
      ensures out == old(out) + Xor(c, password, header, chunk, old(pos)) && pos == old(pos) + |chunk|
    {
      out, pos := out + Xor(c, password, header, chunk, pos), pos + |chunk|;
    }
  }

  function Concat(chunks: seq<seq<Byte>>): seq<Byte> {
    if chunks == [] then [] else Concat(chunks[..|chunks| - 1]) + chunks[|chunks| - 1]
  }

  /** The chunks make up the data in the order in which they come. */
  lemma {:induction false} ConcatJoins(a: seq<seq<Byte>>, b: seq<seq<Byte>>, chunk: seq<Byte>)
    ensures Concat([chunk] + a) == chunk + Concat(a) && Concat(a + b) == Concat(a) + Concat(b)
    decreases |a| + |b|
  {
    if b != [] {
      var init, last := b[..|b| - 1], b[|b| - 1];
      assert (a + b)[..|a + b| - 1] == a + init;
      ConcatJoins(a, init, chunk);
    } else {
      assert a + b == a;
      if a == [] {
        assert [chunk][..0] == [];
        assert [chunk] + a == [chunk];
      } else {
        var init := a[..|a| - 1];
        assert ([chunk] + a)[..|[chunk] + a| - 1] == [chunk] + init;
        ConcatJoins(init, [], chunk);
      }
    }
  }

  /** `io.Copy` through a stream writer gives the same for every way of cutting the data into chunks. */
  method CopyThrough(w: StreamWriter, chunks: seq<seq<Byte>>)
    requires |w.header| == OVERHEAD
    modifies w
    ensures w.out == old(w.out) + Xor(w.c, w.password, w.header, Concat(chunks), old(w.pos))
  {
    hide Xor;
    ghost var from := w.pos;
    for i := 0 to |chunks|
      invariant w.pos == from + |Concat(chunks[..i])|
      invariant w.out == old(w.out) + Xor(w.c, w.password, w.header, Concat(chunks[..i]), from)
    {
      assert chunks[..i + 1][..i] == chunks[..i];
      XorConcat(w.c, w.password, w.header, Concat(chunks[..i]), chunks[i], from);
      w.Write(chunks[i]);
    }
    assert chunks[..|chunks|] == chunks;
  }

  /** `streamEncryptUpload` */
  method StreamEncryptUpload(c: Cipher, password: string, salt: seq<Byte>, nonce: seq<Byte>, chunks: seq<seq<Byte>>)
    returns (remote: seq<Byte>)
    requires |salt| == SALT_LEN && |nonce| == OVERHEAD - SALT_LEN
    ensures remote == Encrypted(c, password, salt + nonce, Concat(chunks))
    ensures |remote| == |Concat(chunks)| + 32 && remote[..16] == salt && remote[16..32] == nonce
    ensures forall i :: 0 <= i < |Concat(chunks)| ==> remote[32 + i] == Concat(chunks)[i] ^ c.keystream(c.kdf(password, salt), nonce, i)
  {
    CipherText(c, password, salt, nonce, Concat(chunks));
    var w := new StreamWriter(c, password, salt + nonce, salt + nonce);
    CopyThrough(w, chunks);
    remote := w.out;
  }

  /** What is sent, byte by byte: salt, nonce, and the data combined with the keystream of the key that password and salt
      give, and of the nonce. */
  lemma CipherText(c: Cipher, password: string, salt: seq<Byte>, nonce: seq<Byte>, data: seq<Byte>)
    requires |salt| == SALT_LEN && |nonce| == OVERHEAD - SALT_LEN
    ensures var r := Encrypted(c, password, salt + nonce, data);
      && |r| == |data| + 32 && r[..16] == salt && r[16..32] == nonce
      && forall i :: 0 <= i < |data| ==> r[32 + i] == data[i] ^ c.keystream(c.kdf(password, salt), nonce, i)
  {
    var header := salt + nonce;
    assert header[..SALT_LEN] == salt && header[SALT_LEN..] == nonce;
  }

  /** What is saved of an encrypted file, byte by byte: what follows the first 32 bytes, combined with the keystream of
      the key that the password and the first 16 give, and of the next 16. */
  lemma PlainText(c: Cipher, password: string, remote: seq<Byte>)
    requires password != "" && |remote| >= 32 && !StartsPK(remote)
    ensures Downloaded(c, password, remote).Saved?
    ensures var data := Downloaded(c, password, remote).data;
      && |data| == |remote| - 32
      && forall i :: 0 <= i < |data| ==> data[i] == remote[32 + i] ^ c.keystream(c.kdf(password, remote[..16]), remote[16..32], i)
  {
    var header := remote[..OVERHEAD];
    assert header[..SALT_LEN] == remote[..16] && header[SALT_LEN..] == remote[16..32];
  }

  /** What becomes of a download: the local file, or the error and, if copying broke off, what is saved of it. */
  datatype Download =
    | Saved(data: seq<Byte>) | OpenFailed | ReadFailed | CreateFailed
    | CopyFailed(written: seq<Byte>)

  /** What goes wrong: opening the remote file, reading its first bytes, creating the local file, or copying
      after so many chunks. */
  datatype Faults = Faults(open: bool, read: bool, create: bool, copy: Option<nat>)

  predicate StartsPK(s: seq<Byte>) { |s| >= 2 && s[0] == 80 && s[1] == 75 }

  /** What a download of `remote` saves: one to 31 bytes are an error, no bytes an empty file,
      and a file without the zip signature counts as encrypted if there is a password. */
  function Downloaded(c: Cipher, password: string, remote: seq<Byte>): Download {
    if 0 < |remote| < OVERHEAD then ReadFailed
    else if password != "" && |remote| >= OVERHEAD && !StartsPK(remote) then
      Saved(Xor(c, password, remote[..OVERHEAD], remote[OVERHEAD..], 0))
    else Saved(remote)
  }

  /** The chunks that arrive before copying breaks off. */
  function Copied(chunks: seq<seq<Byte>>, faults: Faults): seq<seq<Byte>> {
    if faults.copy.Some? && faults.copy.value <= |chunks| then chunks[..faults.copy.value] else chunks
  }

  /** `getOneFile`: the header is read first, then `chunks` make up the rest. A copy that breaks off leaves a
      beginning of the right bytes. */
  method GetOneFile(c: Cipher, password: string, remote: seq<Byte>, chunks: seq<seq<Byte>>, faults: Faults) returns (r: Download)
    requires remote == remote[..if |remote| < OVERHEAD then |remote| else OVERHEAD] + Concat(chunks)
    ensures var whole := Downloaded(c, password, remote);
      if faults.open then r == OpenFailed
      else if faults.read || whole.ReadFailed? then r == ReadFailed
      else if faults.create then r == CreateFailed
      else if faults.copy.None? then r == whole
      else r.CopyFailed? && whole.Saved? && r.written <= whole.data &&
           |whole.data| - |r.written| == |remote| - (if |remote| < 32 then |remote| else 32) - |Concat(Copied(chunks, faults))|
    ensures r.Saved? && password != "" && |remote| >= 32 && !(remote[0] == 80 && remote[1] == 75) ==>
      && |r.data| == |remote| - 32
      && forall i :: 0 <= i < |r.data| ==> r.data[i] == remote[32 + i] ^ c.keystream(c.kdf(password, remote[..16]), remote[16..32], i)
    ensures r.Saved? && (password == "" || |remote| < 32 || (remote[0] == 80 && remote[1] == 75)) ==> r.data == remote
  {
    if password != "" && |remote| >= 32 && !StartsPK(remote) { PlainText(c, password, remote); }
    hide Stream, Mix, Xor;
    if faults.open { return OpenFailed; }
    var n := if |remote| < OVERHEAD then |remote| else OVERHEAD;
    var header := remote[..n];
    if faults.read || 0 < n < OVERHEAD { return ReadFailed; }
    if faults.create { return CreateFailed; }
    var copied := Copied(chunks, faults);
    var out := Receive(c, password, header, copied);
    ReceivedPart(c, password, remote, header, chunks, copied);
    r := if faults.copy.Some? then CopyFailed(out) else Saved(out);
  }

  /** The local file after so many chunks behind the header. */
  function Received(c: Cipher, password: string, header: seq<Byte>, chunks: seq<seq<Byte>>): seq<Byte>
    requires |header| == 0 || |header| == OVERHEAD
  {
    if password != "" && |header| == OVERHEAD && !StartsPK(header) then Xor(c, password, header, Concat(chunks), 0)
    else header + Concat(chunks)
  }

  method Receive(c: Cipher, password: string, header: seq<Byte>, chunks: seq<seq<Byte>>) returns (out: seq<Byte>)
    requires |header| == 0 || |header| == OVERHEAD
    ensures out == Received(c, password, header, chunks)
  {
    var decrypt := password != "" && |header| == OVERHEAD && (header[0] != 80 || header[1] != 75);
    if decrypt {
      var w := new StreamWriter(c, password, header, []);
      CopyThrough(w, chunks);
      return w.out;
    }
    out := [];
    if |header| > 0 { out := out + header; }
    for i := 0 to |chunks|
      invariant out == header + Concat(chunks[..i])
    {
      assert chunks[..i + 1][..i] == chunks[..i];
      out := out + chunks[i];
    }
    assert chunks[..|chunks|] == chunks;
  }

  lemma ReceivedPart(c: Cipher, password: string, remote: seq<Byte>, header: seq<Byte>, chunks: seq<seq<Byte>>, some: seq<seq<Byte>>)
    requires some <= chunks && remote == header + Concat(chunks)
    requires |header| == OVERHEAD || (|header| == 0 && |remote| == 0)
    ensures var whole := Downloaded(c, password, remote); whole.Saved? && Received(c, password, header, some) <= whole.data
    ensures some == chunks ==> Downloaded(c, password, remote) == Saved(Received(c, password, header, some))
  {
    hide Xor;
    ConcatPrefix(chunks, some);
    assert |header| == OVERHEAD ==> remote[..OVERHEAD] == header && remote[OVERHEAD..] == Concat(chunks);
    if |header| == OVERHEAD { XorPrefix(c, password, header, Concat(chunks), Concat(some)); }
  }

  lemma {:induction false} ConcatPrefix(chunks: seq<seq<Byte>>, some: seq<seq<Byte>>)
    requires some <= chunks
    ensures Concat(some) <= Concat(chunks)
  {
    if some != chunks { ConcatPrefix(chunks[..|chunks| - 1], some); }
  }

  lemma XorPrefix(c: Cipher, password: string, header: seq<Byte>, data: seq<Byte>, some: seq<Byte>)
    requires |header| == OVERHEAD && some <= data
    ensures Xor(c, password, header, some, 0) <= Xor(c, password, header, data, 0)
  {}

  /** An encrypted upload is downloaded as the original file exactly when its salt does not
      look like the start of a zip. */
  lemma EncryptedRoundTrip(c: Cipher, password: string, header: seq<Byte>, data: seq<Byte>)
    requires |header| == OVERHEAD && password != ""
    ensures Downloaded(c, password, Encrypted(c, password, header, data)) == Saved(data) <==> !StartsPK(header)
  {
    var remote := Encrypted(c, password, header, data);
    assert remote[..OVERHEAD] == header && remote[OVERHEAD..] == Xor(c, password, header, data, 0);
    if StartsPK(header) {
      assert |remote| != |data|;
    } else {
      XorTwice(c, password, header, data, 0);
    }
  }

  /** A plain upload is downloaded unchanged exactly if it is empty, or at least as long as an encryption
      header and, should a password be set, starts like a zip. */
  lemma PlainRoundTrip(c: Cipher, password: string, data: seq<Byte>)
    ensures Downloaded(c, password, data) == Saved(data) <==>
            |data| == 0 || (|data| >= OVERHEAD && (password == "" || StartsPK(data)))
  {
    if password != "" && |data| >= OVERHEAD && !StartsPK(data) {
      assert |Xor(c, password, data[..OVERHEAD], data[OVERHEAD..], 0)| != |data|;
    }
  }
}
