/**
 * The error-message builders: a path wrapped in double quotes between a
 * prefix and a suffix, as the file system's exceptions carry them.
 */
module ErrMsg {
  import opened Wrappers

  const Quote: char := '"'

  /** vfs_err_msg(prefix, p, suffix): prefix, then p in double quotes, then suffix. */
  function VfsErrMsg(prefix: string, p: string, suffix: string): (r: string)
    ensures |r| == |prefix| + |p| + |suffix| + 2
    ensures r[..|prefix|] == prefix
    ensures r[|prefix|] == Quote
    ensures r[|prefix| + 1..|prefix| + 1 + |p|] == p
    ensures r[|prefix| + 1 + |p|] == Quote
    ensures r[|prefix| + |p| + 2..] == suffix
  {
    prefix + [Quote] + p + [Quote] + suffix
  }

  /** vfs_err_msg(p, suffix): the three-argument form with an empty prefix. */
  function VfsErrMsgNoPrefix(p: string, suffix: string): (r: string)
    ensures |r| == |p| + |suffix| + 2
    ensures r[0] == Quote && r[|p| + 1] == Quote
    ensures r[1..|p| + 1] == p
    ensures r[|p| + 2..] == suffix
  {
    VfsErrMsg([], p, suffix)
  }

  /**
   * stdfs_err_msg(prefix, p, suffix) over the native (POSIX) spelling of a
   * host path: the same quote-wrapped shape as the file-system form.
   */
  function StdfsErrMsg(prefix: string, native: string, suffix: string): (r: string)
    ensures r == VfsErrMsg(prefix, native, suffix)
  {
    var result := prefix;
    var result := result + [Quote];
    var result := result + native;
    var result := result + [Quote];
    result + suffix
  }

  /** stdfs_err_msg(p, suffix): the three-argument form with an empty prefix. */
  function StdfsErrMsgNoPrefix(native: string, suffix: string): (r: string)
    ensures r == VfsErrMsgNoPrefix(native, suffix)
  {
    StdfsErrMsg([], native, suffix)
  }

  /**
   * Reads the quoted path back out of a message whose prefix and suffix
   * lengths are known; None when the text is too short or a quote is missing.
   */
  function QuotedPath(msg: string, prefixLength: nat, suffixLength: nat): (r: Option<string>)
    ensures r.Some? ==> |r.value| + prefixLength + suffixLength + 2 == |msg|
  {
    if |msg| < prefixLength + suffixLength + 2 then None
    else if msg[prefixLength] != Quote || msg[|msg| - suffixLength - 1] != Quote then None
    else Some(msg[prefixLength + 1..|msg| - suffixLength - 1])
  }

  /** The quoted path of a message is the path it was built from. */
  lemma QuotedPathOfMessage(prefix: string, p: string, suffix: string)
    ensures QuotedPath(VfsErrMsg(prefix, p, suffix), |prefix|, |suffix|) == Some(p)
  {
    var m := VfsErrMsg(prefix, p, suffix);
    assert |m| - |suffix| - 1 == |prefix| + 1 + |p|;
  }

  /** Two messages with the same prefix and suffix are equal only for equal paths. */
  lemma VfsErrMsgInjective(prefix: string, p: string, q: string, suffix: string)
    requires VfsErrMsg(prefix, p, suffix) == VfsErrMsg(prefix, q, suffix)
    ensures p == q
  {
    QuotedPathOfMessage(prefix, p, suffix);
    QuotedPathOfMessage(prefix, q, suffix);
  }

  /** The message that open and file_size raise for a path nothing is mounted at. */
  lemma NotFoundMessage()
    ensures VfsErrMsgNoPrefix("/data/not/found", " is not found") == "\"/data/not/found\" is not found"
  {
  }
}
