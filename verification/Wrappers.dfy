/** The failure-carrying types the modules share. */
module Wrappers {
  datatype Option<+T> = None | Some(value: T)

  /** What can go wrong, one constructor per error the modelled code returns. */
  datatype Error = Malformed | BadSignature | BadUtf8 | BadJson

  datatype Result<+T> = Ok(value: T) | Err(error: Error)

  /** One loop step over `s[..i]`. */
  lemma PrefixGrows<T>(s: seq<T>, i: nat)
    requires i < |s|
    ensures s[..i + 1] == s[..i] + [s[i]]
  {
  }

  lemma WholePrefix<T>(s: seq<T>)
    ensures s[..|s|] == s
  {
  }
}
