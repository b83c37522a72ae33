/**
  The SuperGenPass hash chain. The state starts as `master:domain`; each
  round hashes the UTF-8 bytes of the state and replaces the state by the
  special base 64 text of the digest. Generation stops at the first round,
  from the tenth on, whose `length`-character prefix passes `_valid_pass`,
  and returns that prefix.

  The digest function (`hashlib.new(algorithm, data).digest()`) is a
  parameter: the algorithm is whatever function the caller passes in.
 */
module Generator {
  import opened Text
  import opened Base64
  import opened PasswordRules

  /** The number of rounds that always run before any prefix is checked. */
  const MinRounds: nat := 10

  /** The initial state. */
  function Seed(master: string, domain: string): string
  {
    master + ":" + domain
  }

  /** One round: digest the UTF-8 bytes of the state and encode the digest. */
  function Step(digest: seq<byte> -> seq<byte>, state: string): (next: string)
    ensures AllAlnum(next)
    ensures |next| == 4 * ((|digest(Utf8(state))| + 2) / 3)
  {
    SpecialEncode(digest(Utf8(state)))
  }

  /** The state after `k` rounds. */
  function Round(master: string, domain: string, digest: seq<byte> -> seq<byte>, k: nat): string
    decreases k
  {
    if k == 0 then Seed(master, domain)
    else Step(digest, Round(master, domain, digest, k - 1))
  }

  /** Round `k` ends the loop: the floor of ten rounds is reached and the prefix is a valid password. */
  predicate Accepts(master: string, domain: string, length: int, digest: seq<byte> -> seq<byte>, k: nat)
  {
    !Continues(Round(master, domain, digest, k), k, length)
  }

  /** The loop condition of `generate`: fewer than ten rounds so far, or a prefix that fails `_valid_pass`. */
  predicate Continues(state: string, count: nat, length: int)
  {
    count < MinRounds || !ValidPass(Head(state, length))
  }

  /**
    `generate(master, domain, length, algorithm)`. The loop has no bound of
    its own: it ends exactly when some round accepts, so that is what the
    caller must guarantee, and the result comes from the first such round.
   */
  method Generate(master: string, domain: string, length: int, digest: seq<byte> -> seq<byte>)
    returns (password: string, ghost rounds: nat)
    requires exists k: nat :: Accepts(master, domain, length, digest, k)
    ensures rounds >= MinRounds
    ensures Accepts(master, domain, length, digest, rounds)
    ensures forall j: nat :: j < rounds ==> !Accepts(master, domain, length, digest, j)
    ensures password == Head(Round(master, domain, digest, rounds), length)
    ensures ValidPass(password)
    ensures length >= 0 ==> |password| == Min(length, |Round(master, domain, digest, rounds)|)
  {
    ghost var first := FirstAccepting(master, domain, length, digest);
    var state := Stretch(master, domain, length, digest, first);
    rounds := first;
    password := Head(state, length);
  }

  /**
    The hashing loop of `generate`. The ghost `first` names the first round
    that accepts; the loop knows nothing of it and stops exactly there.
   */
  method Stretch(master: string, domain: string, length: int, digest: seq<byte> -> seq<byte>, ghost first: nat)
    returns (password: string)
    requires Accepts(master, domain, length, digest, first)
    requires forall j: nat :: j < first ==> !Accepts(master, domain, length, digest, j)
    ensures password == Round(master, domain, digest, first)
  {
    password := Seed(master, domain);
    var count: nat := 0;
    while Continues(password, count, length)
      invariant password == Round(master, domain, digest, count)
      invariant count <= first
      decreases first - count
    {
      assert count != first;
      var d := digest(Utf8(password));
      var next := Replace(EncodeAlt(d), Pad, 'A');
      assert next == Step(digest, password);
      password, count := next, count + 1;
    }
    assert Accepts(master, domain, length, digest, count);
  }

  /** The first accepting round exists whenever some round accepts. */
  lemma FirstAccepting(master: string, domain: string, length: int, digest: seq<byte> -> seq<byte>) returns (first: nat)
    requires exists k: nat :: Accepts(master, domain, length, digest, k)
    ensures Accepts(master, domain, length, digest, first)
    ensures forall j: nat :: j < first ==> !Accepts(master, domain, length, digest, j)
  {
    var k: nat :| Accepts(master, domain, length, digest, k);
    var accepts := iset j: nat | Accepts(master, domain, length, digest, j);
    first := Least(accepts, k);
    assert first in accepts;
    forall j: nat | j < first
      ensures !Accepts(master, domain, length, digest, j)
    {
      assert j !in accepts;
    }
  }

  /** Every nonempty set of naturals has a least element. */
  lemma {:induction false} Least(s: iset<nat>, k: nat) returns (m: nat)
    requires k in s
    ensures m in s && m <= k
    ensures forall j: nat :: j < m ==> j !in s
    decreases k
  {
    if exists j: nat :: j < k && j in s {
      var j: nat :| j < k && j in s;
      m := Least(s, j);
    } else {
      m := k;
    }
  }

  /** The prefix of an accepting round meets the rules, and it is never the seed itself. */
  lemma AcceptedPassword(master: string, domain: string, length: int, digest: seq<byte> -> seq<byte>, k: nat)
    requires Accepts(master, domain, length, digest, k)
    ensures Rules(Head(Round(master, domain, digest, k), length))
    ensures Head(Round(master, domain, digest, k), length) != Seed(master, domain)
  {
    var p := Head(Round(master, domain, digest, k), length);
    RoundIsAlnum(master, domain, digest, k);
    ValidAlnumMeansRules(p);
    assert ':' in Seed(master, domain);
  }

  function Min(a: int, b: int): int { if a < b then a else b }

  /** Every state after the first round is alphanumeric. */
  lemma RoundIsAlnum(master: string, domain: string, digest: seq<byte> -> seq<byte>, k: nat)
    requires k >= 1
    ensures AllAlnum(Round(master, domain, digest, k))
  {
  }

  /** A digest of fixed size `n` gives states of 4 * ceil(n / 3) characters after the first round. */
  lemma StateLength(master: string, domain: string, digest: seq<byte> -> seq<byte>, n: nat, k: nat)
    requires k >= 1
    requires forall data :: |digest(data)| == n
    ensures |Round(master, domain, digest, k)| == 4 * ((n + 2) / 3)
  {
  }

  /** With a 16-octet digest such as MD5 the state has 24 characters, so a prefix is never longer. */
  lemma Md5StateLength(master: string, domain: string, digest: seq<byte> -> seq<byte>, k: nat, length: int)
    requires k >= 1
    requires forall data :: |digest(data)| == 16
    ensures |Round(master, domain, digest, k)| == 24
    ensures length >= 0 ==> |Head(Round(master, domain, digest, k), length)| == Min(length, 24)
  {
    StateLength(master, domain, digest, 16, k);
  }

  /** From the first round on the state is ASCII, so its UTF-8 bytes are its code points, one per character. */
  lemma StateBytes(master: string, domain: string, digest: seq<byte> -> seq<byte>, k: nat)
    requires k >= 1
    ensures var state := Round(master, domain, digest, k);
      && |Utf8(state)| == |state|
      && forall i :: 0 <= i < |state| ==> Utf8(state)[i] == state[i] as int
  {
    var state := Round(master, domain, digest, k);
    RoundIsAlnum(master, domain, digest, k);
    assert forall i :: 0 <= i < |state| ==> IsAlnum(state[i]);
    Utf8Ascii(state);
  }

  /** A length below three can never be met, so `generate` would not return. */
  lemma ShortLengthNeverAccepted(master: string, domain: string, length: int, digest: seq<byte> -> seq<byte>, k: nat)
    requires 0 <= length < 3
    ensures !Accepts(master, domain, length, digest, k)
  {
    var p := Head(Round(master, domain, digest, k), length);
    if Accepts(master, domain, length, digest, k) {
      RoundIsAlnum(master, domain, digest, k);
      AlnumHasNoFinalNewline(p);
      ValidPassLength(p);
    }
  }
}
