// The cipher of tasks/krypt.c, tasks/memkrypt.c and tasks/unkrypt.c: each byte
// is combined with the key byte at its offset in the whole stream.
module XorStream {
  import opened Common

  // "SpuriOS", in ASCII
  const KEY: seq<Byte> := [0x53, 0x70, 0x75, 0x72, 0x69, 0x4F, 0x53]

  function KeyAt(i: nat): Byte {
    KEY[i % |KEY|]
  }

  // The first j bytes of s combined, where s is at `offset` in the stream.
  function Mixed(s: seq<Byte>, offset: nat, j: nat): (r: seq<Byte>)
    ensures |r| == |s|
  {
    seq(|s|, i requires 0 <= i < |s| => if i < j then s[i] ^ KeyAt(offset + i) else s[i])
  }

  function Cipher(s: seq<Byte>, offset: nat): (r: seq<Byte>)
    ensures |r| == |s|
  {
    Mixed(s, offset, |s|)
  }

  function Concat(chunks: seq<seq<Byte>>): seq<Byte> {
    if chunks == [] then [] else Concat(chunks[..|chunks| - 1]) + chunks[|chunks| - 1]
  }

  // What a stage makes of the chunks, one after the other, with its running offset.
  function CipherEach(chunks: seq<seq<Byte>>): seq<Byte> {
    if chunks == [] then []
    else
      var before := chunks[..|chunks| - 1];
      CipherEach(before) + Cipher(chunks[|chunks| - 1], |Concat(before)|)
  }

  lemma CipherAppend(a: seq<Byte>, b: seq<Byte>)
    ensures Cipher(a + b, 0) == Cipher(a, 0) + Cipher(b, |a|)
  {}

  /** How the stream is cut into chunks does not matter. */
  lemma {:induction false} ChunksDoNotMatter(chunks: seq<seq<Byte>>)
    ensures CipherEach(chunks) == Cipher(Concat(chunks), 0)
  {
    if chunks != [] {
      var before := chunks[..|chunks| - 1];
      ChunksDoNotMatter(before);
      CipherAppend(Concat(before), chunks[|chunks| - 1]);
    }
  }

  lemma XorTwice(b: Byte, k: Byte)
    ensures (b ^ k) ^ k == b
  {}

  /** unkrypt undoes krypt, whatever chunks each of them happened to read. */
  lemma DecryptUndoesEncrypt(sent: seq<seq<Byte>>, read: seq<seq<Byte>>)
    requires Concat(read) == CipherEach(sent)
    ensures CipherEach(read) == Concat(sent)
  {
    ChunksDoNotMatter(sent);
    ChunksDoNotMatter(read);
    var plain := Concat(sent);
    forall i | 0 <= i < |plain| ensures CipherEach(read)[i] == plain[i] {
      XorTwice(plain[i], KeyAt(i));
    }
  }

  /** Different streams stay different. */
  lemma CipherIsInjective(s: seq<Byte>, t: seq<Byte>, offset: nat)
    requires Cipher(s, offset) == Cipher(t, offset)
    ensures s == t
  {
    assert |s| == |t|;
    forall i | 0 <= i < |s| ensures s[i] == t[i] {
      assert Cipher(s, offset)[i] == Cipher(t, offset)[i];
      XorTwice(s[i], KeyAt(offset + i));
      XorTwice(t[i], KeyAt(offset + i));
    }
  }

  /** Each byte is combined with a letter of "SpuriOS", over and over again. */
  lemma CipherIsNameXored(s: seq<Byte>, offset: nat, i: nat)
    requires i < |s|
    ensures Cipher(s, offset)[i] == s[i] ^ [0x53, 0x70, 0x75, 0x72, 0x69, 0x4F, 0x53][(offset + i) % 7]
  {
    var name: seq<Byte> := [0x53, 0x70, 0x75, 0x72, 0x69, 0x4F, 0x53];
    assert name == KEY && |name| == 7;
    assert KeyAt(offset + i) == name[(offset + i) % 7];
  }

  lemma AllNameXored(s: seq<Byte>)
    ensures forall i :: 0 <= i < |s| ==> Cipher(s, 0)[i] == s[i] ^ [0x53, 0x70, 0x75, 0x72, 0x69, 0x4F, 0x53][i % 7]
  {
    forall i | 0 <= i < |s| ensures Cipher(s, 0)[i] == s[i] ^ [0x53, 0x70, 0x75, 0x72, 0x69, 0x4F, 0x53][i % 7] {
      CipherIsNameXored(s, 0, i);
    }
  }

  // So zeros show the name, and what is combined with a byte depends on its place only.
  lemma ZerosShowTheName(zeros: seq<Byte>)
    requires |zeros| == 7 && forall i :: 0 <= i < 7 ==> zeros[i] == 0
    ensures Cipher(zeros, 0) == [0x53, 0x70, 0x75, 0x72, 0x69, 0x4F, 0x53]
  {
    forall i | 0 <= i < 7 ensures Cipher(zeros, 0)[i] == KEY[i] {
      assert KeyAt(i) == KEY[i];
      XorWithZero(KEY[i]);
    }
  }

  lemma XorWithZero(k: Byte)
    ensures 0 ^ k == k
  {}

  lemma XorCancels(b: Byte, k: Byte)
    ensures (b ^ k) ^ b == k
  {}

  lemma SamePad(s: seq<Byte>, t: seq<Byte>, i: nat, j: nat)
    requires i < |s| && j < |t| && i % 7 == j % 7
    ensures Cipher(s, 0)[i] ^ s[i] == Cipher(t, 0)[j] ^ t[j]
  {
    XorCancels(s[i], KeyAt(i));
    XorCancels(t[j], KeyAt(j));
  }

  // The loop of krypt_encrypt and of unkrypt's main over one buffer.
  method XorBuffer(buffer: array<Byte>, sz: nat, bytes: nat) returns (bytes': nat)
    requires sz <= buffer.Length
    modifies buffer
    ensures buffer[..] == Cipher(old(buffer[..sz]), bytes) + old(buffer[sz..])
    ensures bytes' == bytes + sz
  {
    var i := 0;
    bytes' := bytes;
    ghost var was := buffer[..];
    while i < sz
      invariant i <= sz && bytes' == bytes + i
      invariant buffer[..] == Mixed(was, bytes, i)
    {
      buffer[i] := buffer[i] ^ KeyAt(bytes');
      i := i + 1;
      bytes' := bytes' + 1;
    }
  }

  // The whole loop, over the chunks that `read` returned one after the other.
  method Encrypt(page: array<Byte>, chunks: seq<seq<Byte>>) returns (out: seq<Byte>)
    requires forall k :: 0 <= k < |chunks| ==> 0 < |chunks[k]| <= page.Length
    modifies page
    ensures out == Cipher(Concat(chunks), 0)
    ensures forall i :: 0 <= i < |out| ==> out[i] == Concat(chunks)[i] ^ [0x53, 0x70, 0x75, 0x72, 0x69, 0x4F, 0x53][i % 7]
  {
    out := [];
    var bytes, k := 0, 0;
    while k < |chunks|
      invariant k <= |chunks| && bytes == |Concat(chunks[..k])|
      invariant out == CipherEach(chunks[..k])
    {
      var sz := |chunks[k]|;
      assert chunks[..k + 1][..k] == chunks[..k];
      Load(page, chunks[k]);
      bytes := XorBuffer(page, sz, bytes);
      out := out + page[..sz];
      k := k + 1;
    }
    assert chunks[..k] == chunks;
    ChunksDoNotMatter(chunks);
    AllNameXored(Concat(chunks));
  }

  // memset and read
  method Load(page: array<Byte>, chunk: seq<Byte>)
    requires |chunk| <= page.Length
    modifies page
    ensures page[..|chunk|] == chunk
  {
    var i := 0;
    while i < page.Length
      invariant i <= page.Length && forall x :: 0 <= x < i ==> page[x] == if x < |chunk| then chunk[x] else 0
    {
      page[i] := if i < |chunk| then chunk[i] else 0;
      i := i + 1;
    }
  }
}
