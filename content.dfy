/** The bytes getInputStream delivers and caches, on the cached path and on the reload path. */
module Content {
  /** Below this length a stream is loaded into memory at once; from it on it is handed out as is. */
  const LoadThroughBufferThreshold: int := 1024 * 1024

  /**
   * FileUtil.loadBytes(stream, n) over `s`, and equally a stream limited to `n` bytes read to
   * its end: the first `n` bytes, or all of `s` when it is shorter; a negative count reads nothing.
   */
  function Prefix(s: seq<bv8>, n: int): (r: seq<bv8>)
    ensures r <= s
    ensures |r| == if n < 0 then 0 else if n <= |s| then n else |s|
  {
    if n < 0 then [] else if n <= |s| then s[..n] else s
  }

  /**
   * The reload path, read to its end: below the threshold loadBytes stops at the delegate's
   * length `len`; from the threshold on the replicating stream passes every delegate byte.
   * Either way the bytes delivered are the bytes cached, and a read that falls short of `len`
   * has taken everything the delegate had.
   */
  function Reloaded(content: seq<bv8>, len: int): (r: seq<bv8>)
    ensures r <= content
    ensures len < LoadThroughBufferThreshold ==> |r| <= len || len < 0
    ensures 0 <= len && |r| < len ==> r == content
    ensures LoadThroughBufferThreshold <= len ==> r == content
    ensures len < 0 ==> r == []
  {
    if len < LoadThroughBufferThreshold then Prefix(content, len) else content
  }

  /** Content cached by a reload that read exactly `len` bytes reads back, limited to `len`, as the same bytes. */
  lemma CompleteReloadReadsBack(content: seq<bv8>, len: int)
    requires |Reloaded(content, len)| == len
    ensures Prefix(Reloaded(content, len), len) == Reloaded(content, len)
  {
    var r := Reloaded(content, len);
    assert r[..len] == r;
  }

  /** A reload of a file whose delegate holds exactly `len` bytes caches them all, at any size. */
  lemma ExactContentReloads(content: seq<bv8>)
    ensures Reloaded(content, |content|) == content
  {
    assert content[..|content|] == content;
  }
}
