/** Vocabulary shared by every component: bytes, options, and the errors that matter to control flow. */
module Prelude {

  type byte = b: int | 0 <= b < 256

  datatype Option<+T> = None | Some(value: T) {
    function GetOr(default: T): T {
      if Some? then value else default
    }
  }

  datatype Result<+T, +E> = Ok(value: T) | Err(error: E)

  /** Deadline is the standard library's sentinel (os.ErrDeadlineExceeded); NetTimeout is any other
      net.Error whose Timeout() is true, as the WebSocket library returns. Panic stands for a run-time
      panic of the Go code. */
  datatype Error =
    | EOF
    | UnexpectedEOF
    | Deadline
    | NetTimeout
    | ClosedPipe
    | ShortWrite
    | InvalidWrite
    | InvalidAddrType
    | InvalidAddrLen
    | InvalidCRLF
    | UnsupportedPeer
    | Panic
    | Other(code: nat)

  /** Every protocol element ends in these two bytes. */
  const CRLF: seq<byte> := [13, 10]

  /** trojan.HeaderLen: the length of a user's key. */
  const HEADER_LEN := 56

  /** A connection deadline: not set, set in the future, or passed. */
  datatype Timer = Unset | Armed | Expired

  /** Memory or a connection that is given back by hand. */
  datatype Resource = Absent | Live | Gone

  /** What a tunnel reports: bytes each way and an error. */
  datatype Outcome = Outcome(nr: nat, nw: nat, err: Option<Error>)

  const ALLOC_FAILED := Outcome(0, 0, Some(Other(1)))

  predicate IsTimeout(e: Error) {
    e.Deadline? || e.NetTimeout?
  }

  predicate IsPrefix<T(==)>(p: seq<T>, s: seq<T>) {
    |p| <= |s| && s[..|p|] == p
  }

  lemma PrefixOfAppend<T>(p: seq<T>, s: seq<T>, t: seq<T>)
    requires IsPrefix(p, s)
    ensures IsPrefix(p, s + t)
  {
    assert (s + t)[..|p|] == s[..|p|];
  }

  /** Taking the first n elements in two goes. */
  lemma TakeTwice<T>(s: seq<T>, i: nat, n: nat)
    requires i <= n <= |s|
    ensures s[..n] == s[..i] + s[i..][..n - i]
    ensures s[i..][n - i..] == s[n..]
  {
  }

  lemma Regrouped<T>(a: seq<T>, b: seq<T>, c: seq<T>)
    ensures a + (b + c) == (a + b) + c
  {
  }

  lemma PrefixOfPrefix<T>(p: seq<T>, q: seq<T>, s: seq<T>)
    requires IsPrefix(q, s)
    ensures IsPrefix(p, q) ==> IsPrefix(p, s)
  {
    if IsPrefix(p, q) {
      assert s[..|q|][..|p|] == s[..|p|];
    }
  }
}
