/** The cipher stream of protocol/limbo/session_auth.go: CFB with 8-bit segments over an arbitrary
    block cipher, section 6.3 of NIST SP 800-38A. */
module Cfb8 {
  type Octets = seq<bv8>

  /** A block cipher under one key, as a function on blocks. */
  datatype Block = Block(size: nat, permute: Octets -> Octets) {
    ghost predicate Valid() {
      size > 0 && forall s: Octets | |s| == size :: |permute(s)| == size
    }

    /** The first byte of the encrypted register.  Only a block's worth of the register is used. */
    function KeyByte(register: Octets): bv8
      requires Valid() && |register| >= size
    {
      permute(register[..size])[0]
    }
  }

  // ----- the mode, by its definition

  /** The input block after some ciphertext: the last bytes of the vector followed by it. */
  function Register(iv: Octets, cipher: Octets): (r: Octets)
    ensures |r| == |iv|
  {
    (iv + cipher)[|cipher|..]
  }

  /** A byte against the first of the next encrypted register. */
  function Masked(block: Block, iv: Octets, cipher: Octets, b: bv8): bv8
    requires block.Valid() && |iv| >= block.size
  {
    b ^ block.KeyByte(Register(iv, cipher))
  }

  lemma MaskedTwice(block: Block, iv: Octets, cipher: Octets, b: bv8)
    requires block.Valid() && |iv| >= block.size
    ensures Masked(block, iv, cipher, Masked(block, iv, cipher, b)) == b
  {
    hide Block.KeyByte, Register;
    XorTwice(b, block.KeyByte(Register(iv, cipher)));
  }

  function Encrypted(block: Block, iv: Octets, plain: Octets): (cipher: Octets)
    requires block.Valid() && |iv| >= block.size
    ensures |cipher| == |plain|
  {
    if plain == [] then []
    else
      var last := |plain| - 1;
      var before := Encrypted(block, iv, plain[..last]);
      before + [Masked(block, iv, before, plain[last])]
  }

  function Decrypted(block: Block, iv: Octets, cipher: Octets): (plain: Octets)
    requires block.Valid() && |iv| >= block.size
    ensures |plain| == |cipher|
  {
    if cipher == [] then []
    else
      var last := |cipher| - 1;
      Decrypted(block, iv, cipher[..last]) + [Masked(block, iv, cipher[..last], cipher[last])]
  }

  function Transformed(block: Block, iv: Octets, encrypt: bool, input: Octets): (output: Octets)
    requires block.Valid() && |iv| >= block.size
    ensures |output| == |input|
  {
    if encrypt then Encrypted(block, iv, input) else Decrypted(block, iv, input)
  }

  /** The register a stream is left with: the ciphertext is its output or its input. */
  function RegisterAfter(block: Block, iv: Octets, encrypt: bool, input: Octets): (r: Octets)
    requires block.Valid() && |iv| >= block.size
    ensures |r| == |iv|
  {
    Register(iv, if encrypt then Encrypted(block, iv, input) else input)
  }

  lemma XorTwice(a: bv8, k: bv8)
    ensures (a ^ k) ^ k == a
  {}

  lemma EncryptSnoc(block: Block, iv: Octets, plain: Octets, x: bv8)
    requires block.Valid() && |iv| >= block.size
    ensures var before := Encrypted(block, iv, plain);
      Encrypted(block, iv, plain + [x]) == before + [Masked(block, iv, before, x)]
  {
    assert (plain + [x])[..|plain|] == plain;
  }

  lemma DecryptSnoc(block: Block, iv: Octets, cipher: Octets, x: bv8)
    requires block.Valid() && |iv| >= block.size
    ensures Decrypted(block, iv, cipher + [x]) == Decrypted(block, iv, cipher) + [Masked(block, iv, cipher, x)]
  {
    assert (cipher + [x])[..|cipher|] == cipher;
  }

  /** Each byte of ciphertext is the plaintext's against the first byte of the encrypted register,
      whose bytes are the last of the vector and the ciphertext before it. */
  lemma {:induction false} CipherBytes(block: Block, iv: Octets, plain: Octets, i: nat)
    requires block.Valid() && |iv| >= block.size && i < |plain|
    ensures var cipher := Encrypted(block, iv, plain);
      var register := (iv + cipher[..i])[i..i + block.size];
      |register| == block.size && cipher[i] == plain[i] ^ block.permute(register)[0]
    decreases |plain|
  {
    var last := |plain| - 1;
    var before := Encrypted(block, iv, plain[..last]);
    var cipher := Encrypted(block, iv, plain);
    assert cipher[..last] == before;
    if i < last {
      CipherBytes(block, iv, plain[..last], i);
      assert cipher[..i] == before[..i];
    } else {
      var register := (iv + before)[last..];
      assert register[..block.size] == (iv + before)[last..last + block.size];
    }
  }

  /** Decrypting undoes encrypting. */
  lemma {:induction false} DecryptEncrypt(block: Block, iv: Octets, plain: Octets)
    requires block.Valid() && |iv| >= block.size
    ensures Decrypted(block, iv, Encrypted(block, iv, plain)) == plain
  {
    if plain != [] {
      var before, x := plain[..|plain| - 1], plain[|plain| - 1];
      var cipher := Encrypted(block, iv, before);
      DecryptEncrypt(block, iv, before);
      hide Masked, Encrypted, Decrypted;
      assert plain == before + [x];
      EncryptSnoc(block, iv, before, x);
      DecryptSnoc(block, iv, cipher, Masked(block, iv, cipher, x));
      MaskedTwice(block, iv, cipher, x);
    }
  }

  /** And encrypting undoes decrypting, so that every byte sequence is the ciphertext of one plaintext. */
  lemma {:induction false} EncryptDecrypt(block: Block, iv: Octets, cipher: Octets)
    requires block.Valid() && |iv| >= block.size
    ensures Encrypted(block, iv, Decrypted(block, iv, cipher)) == cipher
  {
    if cipher != [] {
      var before, x := cipher[..|cipher| - 1], cipher[|cipher| - 1];
      EncryptDecrypt(block, iv, before);
      hide Masked, Encrypted, Decrypted;
      assert cipher == before + [x];
      DecryptSnoc(block, iv, before, x);
      EncryptSnoc(block, iv, Decrypted(block, iv, before), Masked(block, iv, before, x));
      MaskedTwice(block, iv, before, x);
    }
  }

  lemma RegisterSplit(iv: Octets, a: Octets, b: Octets)
    ensures Register(iv, a + b) == Register(Register(iv, a), b)
  {
    assert iv + (a + b) == (iv + a) + b;
    forall i | 0 <= i < |iv|
      ensures Register(iv, a + b)[i] == Register(Register(iv, a), b)[i]
    {}
  }

  lemma MaskedSplit(block: Block, iv: Octets, a: Octets, b: Octets, x: bv8)
    requires block.Valid() && |iv| >= block.size
    ensures Masked(block, iv, a + b, x) == Masked(block, Register(iv, a), b, x)
  {
    RegisterSplit(iv, a, b);
  }

  lemma {:induction false} EncryptedSplit(block: Block, iv: Octets, a: Octets, b: Octets)
    requires block.Valid() && |iv| >= block.size
    ensures Encrypted(block, iv, a + b)
         == Encrypted(block, iv, a) + Encrypted(block, Register(iv, Encrypted(block, iv, a)), b)
    decreases |b|
  {
    hide Masked, Register;
    if b == [] {
      assert a + b == a;
    } else {
      var last := |b| - 1;
      var ab, next := a + b, Register(iv, Encrypted(block, iv, a));
      assert ab[..|ab| - 1] == a + b[..last] && ab[|ab| - 1] == b[last];
      EncryptedSplit(block, iv, a, b[..last]);
      MaskedSplit(block, iv, Encrypted(block, iv, a), Encrypted(block, next, b[..last]), b[last]);
    }
  }

  lemma {:induction false} DecryptedSplit(block: Block, iv: Octets, a: Octets, b: Octets)
    requires block.Valid() && |iv| >= block.size
    ensures Decrypted(block, iv, a + b) == Decrypted(block, iv, a) + Decrypted(block, Register(iv, a), b)
    decreases |b|
  {
    hide Masked, Register;
    if b == [] {
      assert a + b == a;
    } else {
      var last := |b| - 1;
      var ab := a + b;
      assert ab[..|ab| - 1] == a + b[..last] && ab[|ab| - 1] == b[last];
      DecryptedSplit(block, iv, a, b[..last]);
      MaskedSplit(block, iv, a, b[..last], b[last]);
    }
  }

  /** A stream cut in two: the second call goes on from the register the first leaves, and leaves the
      register one call over the whole would leave. */
  lemma TransformedSplit(block: Block, iv: Octets, encrypt: bool, a: Octets, b: Octets)
    requires block.Valid() && |iv| >= block.size
    ensures var next := RegisterAfter(block, iv, encrypt, a);
      && Transformed(block, iv, encrypt, a + b)
         == Transformed(block, iv, encrypt, a) + Transformed(block, next, encrypt, b)
      && RegisterAfter(block, iv, encrypt, a + b) == RegisterAfter(block, next, encrypt, b)
  {
    if encrypt {
      EncryptedSplit(block, iv, a, b);
      var first := Encrypted(block, iv, a);
      RegisterSplit(iv, first, Encrypted(block, Register(iv, first), b));
    } else {
      DecryptedSplit(block, iv, a, b);
      RegisterSplit(iv, a, b);
    }
  }

  lemma Decrypting(block: Block, iv: Octets, before: Octets, input: Octets)
    requires block.Valid() && |iv| >= block.size
    ensures var next := Register(iv, before);
      && RegisterAfter(block, iv, false, before) == next
      && Transformed(block, next, false, input) == Decrypted(block, next, input)
      && RegisterAfter(block, next, false, input) == RegisterAfter(block, iv, false, before + input)
  {
    RegisterSplit(iv, before, input);
  }

  lemma Encrypting(block: Block, iv: Octets, before: Octets, input: Octets)
    requires block.Valid() && |iv| >= block.size
    ensures var next := RegisterAfter(block, iv, true, before);
      && next == Register(iv, Encrypted(block, iv, before))
      && Transformed(block, next, true, input) == Encrypted(block, next, input)
      && RegisterAfter(block, next, true, input) == RegisterAfter(block, iv, true, before + input)
  {
    TransformedSplit(block, iv, true, before, input);
  }

  // ----- chunks

  function Joined(chunks: seq<Octets>): Octets {
    if chunks == [] then [] else chunks[0] + Joined(chunks[1..])
  }

  /** One call per chunk, each on the register the last one left. */
  function InChunks(block: Block, iv: Octets, encrypt: bool, chunks: seq<Octets>): Octets
    requires block.Valid() && |iv| >= block.size
    decreases |chunks|
  {
    if chunks == [] then []
    else
      Transformed(block, iv, encrypt, chunks[0])
      + InChunks(block, RegisterAfter(block, iv, encrypt, chunks[0]), encrypt, chunks[1..])
  }

  /** How a stream is cut into calls does not matter. */
  lemma {:induction false} ChunkingInvisible(block: Block, iv: Octets, encrypt: bool, chunks: seq<Octets>)
    requires block.Valid() && |iv| >= block.size
    ensures InChunks(block, iv, encrypt, chunks) == Transformed(block, iv, encrypt, Joined(chunks))
    decreases |chunks|
  {
    if chunks != [] {
      TransformedSplit(block, iv, encrypt, chunks[0], Joined(chunks[1..]));
      ChunkingInvisible(block, RegisterAfter(block, iv, encrypt, chunks[0]), encrypt, chunks[1..]);
    }
  }

  /** Whatever is written in some chunks is read back in any others. */
  lemma PeersAgree(block: Block, iv: Octets, sent: seq<Octets>, received: seq<Octets>)
    requires block.Valid() && |iv| >= block.size
    requires Joined(received) == InChunks(block, iv, true, sent)
    ensures InChunks(block, iv, false, received) == Joined(sent)
  {
    ChunkingInvisible(block, iv, true, sent);
    ChunkingInvisible(block, iv, false, received);
    DecryptEncrypt(block, iv, Joined(sent));
  }

  /** What has arrived so far decrypts to what was written first. */
  lemma PrefixDecrypts(block: Block, iv: Octets, plain: Octets, n: nat)
    requires block.Valid() && |iv| >= block.size && n <= |plain|
    ensures Decrypted(block, iv, Encrypted(block, iv, plain)[..n]) == plain[..n]
  {
    assert plain == plain[..n] + plain[n..];
    EncryptedSplit(block, iv, plain[..n], plain[n..]);
    assert Encrypted(block, iv, plain)[..n] == Encrypted(block, iv, plain[..n]);
    DecryptEncrypt(block, iv, plain[..n]);
  }

  // ----- the stream object

  class Stream {
    const block: Block
    const iv: array<bv8>
    const encrypt: bool
    const tmp: array<bv8>

    ghost predicate Valid()
      reads this
    {
      block.Valid() && iv.Length >= block.size && tmp.Length == block.size && iv != tmp
    }

    /** The vector is copied, so that later writes to the caller's copy change nothing. */
    constructor (block: Block, iv: array<bv8>, encrypt: bool)
      requires block.Valid() && iv.Length >= block.size
      ensures Valid() && fresh(this.iv) && fresh(tmp)
      ensures this.block == block && this.encrypt == encrypt && this.iv[..] == iv[..]
    {
      var state := new bv8[iv.Length](i requires 0 <= i < iv.Length reads iv => iv[i]);
      this.block, this.iv, this.encrypt := block, state, encrypt;
      tmp := new bv8[block.size];
    }

    method EncryptBlock()
      requires Valid()
      modifies tmp
      ensures tmp[0] == block.KeyByte(iv[..])
    {
      var register := iv[..];
      var out := block.permute(register[..block.size]);
      forall i | 0 <= i < tmp.Length {
        tmp[i] := out[i];
      }
      assert iv[..] == register;
    }

    method Shift(b: bv8)
      requires Valid()
      modifies iv
      ensures iv[..] == Register(old(iv[..]), [b])
    {
      forall i | 0 <= i < iv.Length - 1 {
        iv[i] := iv[i + 1];
      }
      iv[iv.Length - 1] := b;
    }

    method XORByte(value: bv8) returns (out: bv8)
      requires Valid()
      modifies iv, tmp
      ensures out == value ^ block.KeyByte(old(iv[..]))
      ensures iv[..] == Register(old(iv[..]), [if encrypt then out else value])
    {
      EncryptBlock();
      out := value ^ tmp[0];
      Shift(if encrypt then out else value);
    }

    /** n bytes from src[from..] to dst[into..], which may be the same bytes: what has been written is
        never read again as long as the target does not lie inside and behind the start of the source. */
    method XORKeyStream(dst: array<bv8>, into: nat, src: array<bv8>, from: nat, n: nat)
      requires Valid() && dst !in {iv, tmp} && src !in {iv, tmp}
      requires into + n <= dst.Length && from + n <= src.Length
      requires dst != src || into <= from || from + n <= into
      modifies iv, tmp, dst
      ensures dst[..] == old(dst[..into])
        + Transformed(block, old(iv[..]), encrypt, old(src[from..from + n])) + old(dst[into + n..])
      ensures iv[..] == RegisterAfter(block, old(iv[..]), encrypt, old(src[from..from + n]))
    {
      hide Transformed, RegisterAfter, Register, Block.KeyByte;
      ghost var iv0, input := iv[..], src[from..from + n];
      ghost var done: Octets := [];
      StartAt(block, iv0, encrypt, input);
      for i := 0 to n
        invariant done == Transformed(block, iv0, encrypt, input[..i])
        invariant iv[..] == RegisterAfter(block, iv0, encrypt, input[..i])
        invariant forall k | 0 <= k < i :: dst[into + k] == done[k]
        invariant forall k | 0 <= k < dst.Length && (k < into || into + i <= k) :: dst[k] == old(dst[k])
        invariant forall k | i <= k < n :: src[from + k] == input[k]
      {
        StepAt(block, iv0, encrypt, input, i);
        var out := XORByte(src[from + i]);
        dst[into + i] := out;
        done := done + [out];
      }
      assert input[..n] == input;
    }
  }

  lemma StartAt(block: Block, iv: Octets, encrypt: bool, input: Octets)
    requires block.Valid() && |iv| >= block.size
    ensures Transformed(block, iv, encrypt, input[..0]) == []
    ensures RegisterAfter(block, iv, encrypt, input[..0]) == iv
  {}

  lemma StepAt(block: Block, iv: Octets, encrypt: bool, input: Octets, i: nat)
    requires block.Valid() && |iv| >= block.size && i < |input|
    ensures var out := input[i] ^ block.KeyByte(RegisterAfter(block, iv, encrypt, input[..i]));
      && Transformed(block, iv, encrypt, input[..i + 1]) == Transformed(block, iv, encrypt, input[..i]) + [out]
      && RegisterAfter(block, iv, encrypt, input[..i + 1])
         == Register(RegisterAfter(block, iv, encrypt, input[..i]), [if encrypt then out else input[i]])
  {
    assert input[..i + 1][..i] == input[..i];
    if encrypt {
      RegisterSplit(iv, Encrypted(block, iv, input[..i]),
                    [input[i] ^ block.KeyByte(RegisterAfter(block, iv, encrypt, input[..i]))]);
    } else {
      assert input[..i + 1] == input[..i] + [input[i]];
      RegisterSplit(iv, input[..i], [input[i]]);
    }
  }

  // ----- the connection

  /** The transport: what has been handed to it, and what it will deliver. */
  class Conn {
    var sent: Octets
    var arriving: Octets

    constructor (arriving: Octets)
      ensures sent == [] && this.arriving == arriving
    {
      sent, this.arriving := [], arriving;
    }

    /** Delivers n of the arriving bytes; how many is up to the transport. */
    method Read(p: array<bv8>, n: nat)
      requires n <= p.Length && n <= |arriving|
      modifies this`arriving, p
      ensures p[..] == old(arriving[..n]) + old(p[n..])
      ensures arriving == old(arriving[n..])
    {
      forall i | 0 <= i < n {
        p[i] := arriving[i];
      }
      arriving := arriving[n..];
    }

    /** Takes the first k bytes; all of them unless it fails. */
    method Write(bytes: array<bv8>, k: nat)
      requires k <= bytes.Length
      modifies this`sent
      ensures sent == old(sent) + bytes[..k]
    {
      sent := sent + bytes[..k];
    }
  }

  class EncryptedConn {
    const conn: Conn
    const reader: Stream
    const writer: Stream
    const secret: Octets
    /** Everything the callers have written, and every byte of ciphertext delivered so far. */
    ghost var written: Octets
    ghost var delivered: Octets

    ghost predicate Valid()
      reads this, conn, reader, reader.iv, reader.tmp, writer, writer.iv, writer.tmp
    {
      && reader.Valid() && writer.Valid()
      && reader.iv != writer.iv && reader.tmp != writer.tmp && reader.iv != writer.tmp && reader.tmp != writer.iv
      && !reader.encrypt && writer.encrypt && reader.block == writer.block && |secret| >= reader.block.size
      && writer.iv[..] == RegisterAfter(writer.block, secret, true, written)
      && reader.iv[..] == RegisterAfter(reader.block, secret, false, delivered)
    }

    ghost function Inside(): set<object>
      reads this
    {
      {this, reader.iv, reader.tmp, writer.iv, writer.tmp, conn}
    }

    /** Both directions start from the shared secret. */
    constructor (conn: Conn, block: Block, sharedSecret: array<bv8>)
      requires block.Valid() && sharedSecret.Length >= block.size
      ensures Valid() && fresh(Inside() - {conn}) && this.conn == conn
      ensures written == [] && delivered == [] && secret == sharedSecret[..] && writer.block == block
    {
      this.conn := conn;
      reader := new Stream(block, sharedSecret, false);
      writer := new Stream(block, sharedSecret, true);
      secret := sharedSecret[..];
      written, delivered := [], [];
    }

    /** Decrypts in place.  Over all calls, the callers have been given the decryption of everything
        the transport delivered. */
    method Read(p: array<bv8>, n: nat)
      requires Valid() && p !in Inside() && n <= p.Length && n <= |conn.arriving|
      modifies p, conn`arriving, reader.iv, reader.tmp, this`delivered
      ensures Valid() && conn.arriving == old(conn.arriving[n..])
      ensures delivered == old(delivered) + old(conn.arriving[..n])
      ensures p[n..] == old(p[n..])
      ensures Decrypted(reader.block, secret, delivered)
           == Decrypted(reader.block, secret, old(delivered)) + p[..n]
    {
      hide Decrypted, RegisterAfter, Transformed, Block.KeyByte;
      conn.Read(p, n);
      ghost var arrived := p[..n];
      DecryptedSplit(reader.block, secret, delivered, arrived);
      Decrypting(reader.block, secret, delivered, arrived);
      assert p[0..0 + n] == arrived;
      if n > 0 {
        reader.XORKeyStream(p, 0, p, 0, n);
      } else {
        assert delivered + arrived == delivered;
      }
      delivered := delivered + arrived;
    }

    /** The transport takes the first k bytes of the ciphertext that goes on from all written before,
        so over calls it takes in full it has been given the encryption of everything written.  After
        one it does not, the cipher has moved on all the same. */
    method Write(p: array<bv8>, k: nat) returns (n: nat)
      requires Valid() && p !in Inside() && k <= p.Length
      modifies conn`sent, writer.iv, writer.tmp, this`written
      ensures Valid() && n == k && written == old(written) + p[..]
      ensures Encrypted(writer.block, secret, old(written)) <= Encrypted(writer.block, secret, written)
      ensures conn.sent == old(conn.sent) + Encrypted(writer.block, secret, written)[|old(written)|..][..k]
    {
      hide Encrypted, RegisterAfter, Transformed, Register, Block.KeyByte;
      var out := new bv8[p.Length];
      ghost var input := p[..];
      EncryptedSplit(writer.block, secret, written, input);
      Encrypting(writer.block, secret, written, input);
      assert p[0..0 + p.Length] == input;
      writer.XORKeyStream(out, 0, p, 0, p.Length);
      conn.Write(out, k);
      written := written + input;
      return k;
    }
  }

  // ----- the switch to the cipher

  /** The bufio.Reader that the login is read from before the cipher is installed. */
  class PlainReader {
    const conn: Conn
    var buffer: Octets
    /** All the client sends, and what of it packets have been read from. */
    ghost const stream: Octets
    ghost var taken: Octets

    ghost predicate Valid()
      reads this, conn
    {
      taken + buffer + conn.arriving == stream
    }

    constructor (conn: Conn)
      ensures Valid() && this.conn == conn && buffer == [] && taken == [] && stream == conn.arriving
    {
      this.conn, buffer, stream, taken := conn, [], conn.arriving, [];
    }

    /** Fetches as many bytes as the transport delivers, which may be more than are asked for. */
    method Fetch(n: nat)
      requires Valid() && n <= |conn.arriving|
      modifies this`buffer, conn`arriving
      ensures Valid() && buffer == old(buffer) + old(conn.arriving[..n])
    {
      var p := new bv8[n];
      conn.Read(p, n);
      assert p[..] == old(conn.arriving[..n]);
      buffer := buffer + p[..];
    }

    method Take(k: nat) returns (bytes: Octets)
      requires Valid() && k <= |buffer|
      modifies this
      ensures Valid() && bytes == old(buffer[..k]) && buffer == old(buffer[k..]) && taken == old(taken) + bytes
    {
      bytes, buffer := buffer[..k], buffer[k..];
      taken := taken + bytes;
    }

    /** The encrypted connection reads on from the transport; the buffer is left behind. */
    method Encrypt(block: Block, sharedSecret: array<bv8>) returns (c: EncryptedConn)
      requires Valid() && block.Valid() && sharedSecret.Length >= block.size
      ensures Valid() && c.Valid() && c.conn == conn && c.secret == sharedSecret[..] && c.reader.block == block
      ensures c.delivered == [] && taken + buffer + c.conn.arriving == stream
    {
      c := new EncryptedConn(conn, block, sharedSecret);
    }
  }

  lemma {:induction false} DecryptedAt(block: Block, iv: Octets, cipher: Octets, i: nat)
    requires block.Valid() && |iv| >= block.size && i < |cipher|
    ensures Decrypted(block, iv, cipher)[i] == Masked(block, iv, cipher[..i], cipher[i])
  {
    hide Masked;
    if i < |cipher| - 1 {
      assert cipher[..|cipher| - 1][..i] == cipher[..i];
      DecryptedAt(block, iv, cipher[..|cipher| - 1], i);
    }
  }

  /** A reader that starts late is right again after as many bytes as the register holds. */
  lemma Resynchronises(block: Block, iv: Octets, all: Octets, missed: Octets, cipher: Octets, i: nat)
    requires block.Valid() && |iv| >= block.size && |iv| <= i < |cipher| && all == missed + cipher
    ensures |all| == |missed| + |cipher|
    ensures Decrypted(block, iv, cipher)[i] == Decrypted(block, iv, all)[|missed| + i]
  {
    Within(all, missed, cipher, i);
    hide Decrypted, Block.Valid, Masked;
    Synchronised(block, iv, all, |missed| + i, cipher, i, missed);
  }

  lemma Synchronised(block: Block, iv: Octets, long: Octets, n: nat, short: Octets, i: nat, missed: Octets)
    requires block.Valid() && |iv| >= block.size && |iv| <= i < |short| && n < |long|
    requires long[..n] == missed + short[..i] && long[n] == short[i]
    ensures Decrypted(block, iv, short)[i] == Decrypted(block, iv, long)[n]
  {
    hide Masked, Decrypted, Block.Valid;
    DecryptedAt(block, iv, short, i);
    DecryptedAt(block, iv, long, n);
    MaskForgets(block, iv, missed, short[..i], short[i]);
  }

  /** Only the last bytes of the ciphertext matter. */
  lemma MaskForgets(block: Block, iv: Octets, a: Octets, b: Octets, x: bv8)
    requires block.Valid() && |iv| >= block.size && |b| >= |iv|
    ensures Masked(block, iv, a + b, x) == Masked(block, iv, b, x)
  {
    assert Register(iv, a + b) == b[|b| - |iv|..];
    assert Register(iv, b) == b[|b| - |iv|..];
  }

  lemma Within(all: Octets, a: Octets, b: Octets, i: nat)
    requires i < |b| && all == a + b
    ensures |a| + i < |all| && all[..|a| + i] == a + b[..i] && all[|a| + i] == b[i]
  {}

  lemma Behind(head: Octets, a: Octets, b: Octets, c: Octets)
    requires head + a + b == head + c
    ensures a + b == c
  {
    assert (head + a + b)[|head|..] == a + b && (head + c)[|head|..] == c;
  }

  /** Two texts of one length agree from a place on. */
  ghost predicate RightFrom(a: Octets, b: Octets, from: nat) {
    |a| == |b| && forall i | from <= i < |a| :: a[i] == b[i]
  }

  /** When the client's part of the login has been read in full and the cipher is installed, the
      encrypted reader starts behind the bytes still buffered: it reads what the client encrypted
      exactly if there are none, as when the client waits for an answer; otherwise those are lost, and
      what follows is read right only from as many bytes on as the register holds. */
  lemma SwitchStartsBehindTheBuffer(block: Block, iv: Octets, login: Octets, plain: Octets,
                                    taken: Octets, buffer: Octets, arriving: Octets)
    requires block.Valid() && |iv| >= block.size
    requires taken + buffer + arriving == login + Encrypted(block, iv, plain) && taken == login
    ensures Decrypted(block, iv, arriving) == plain <==> buffer == []
    ensures |arriving| == |plain| - |buffer| && RightFrom(Decrypted(block, iv, arriving), plain[|buffer|..], |iv|)
  {
    hide Encrypted, Decrypted, Block.Valid, RightFrom;
    Behind(login, buffer, arriving, Encrypted(block, iv, plain));
    LateReader(block, iv, plain, buffer, arriving);
  }

  lemma LateReader(block: Block, iv: Octets, plain: Octets, buffer: Octets, arriving: Octets)
    requires block.Valid() && |iv| >= block.size && buffer + arriving == Encrypted(block, iv, plain)
    ensures Decrypted(block, iv, arriving) == plain <==> buffer == []
    ensures |arriving| == |plain| - |buffer| && RightFrom(Decrypted(block, iv, arriving), plain[|buffer|..], |iv|)
  {
    hide Encrypted, Decrypted, Block.Valid, RightFrom;
    DecryptEncrypt(block, iv, plain);
    RightAgain(block, iv, Encrypted(block, iv, plain), buffer, arriving);
    if buffer == [] {
      NothingBefore(arriving);
    }
  }

  lemma NothingBefore(s: Octets)
    ensures [] + s == s
  {}

  lemma RightAgain(block: Block, iv: Octets, all: Octets, missed: Octets, cipher: Octets)
    requires block.Valid() && |iv| >= block.size && all == missed + cipher
    ensures RightFrom(Decrypted(block, iv, cipher), Decrypted(block, iv, all)[|missed|..], |iv|)
  {
    hide Decrypted, Block.Valid;
    forall i | |iv| <= i < |cipher|
      ensures Decrypted(block, iv, cipher)[i] == Decrypted(block, iv, all)[|missed|..][i]
    {
      Resynchronises(block, iv, all, missed, cipher, i);
    }
  }
}
