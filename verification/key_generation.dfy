/**
 * Short-key generation: hash the salted URL, take Math.abs, encode in base 62,
 * right-pad with '0', and probe the store at most ten times for a key no row
 * holds. The probe compares the padded key; truncation to the requested length
 * happens afterwards, in the service.
 */
module KeyGen {
  import opened JavaLang
  import opened Base62
  import opened Repository

  const MAX_ATTEMPTS: nat := 10
  const PAD_CHAR: char := '0'

  /** The salt of an attempt: nothing on the first, "_" and the attempt number afterwards. */
  function Salt(attempt: nat): (s: string)
    ensures attempt == 0 ==> s == ""
    ensures attempt > 0 ==> 2 <= |s| && s[0] == '_'
    ensures attempt > 0 ==> (forall i :: 1 <= i < |s| ==> '0' <= s[i] <= '9') && DecimalValue(s[1..]) == attempt
    ensures attempt > 0 && 2 < |s| ==> s[1] != '0'
  {
    if attempt > 0 then
      DecimalStringRoundTrip(attempt);
      var s := "_" + DecimalString(attempt);
      assert s[1..] == DecimalString(attempt);
      s
    else
      ""
  }

  /** Math.abs of the salted URL's hashCode, widened to long. */
  function AttemptHash(url: string, attempt: nat): (h: int)
    ensures h == INT_MIN || 0 <= h <= INT_MAX
  {
    AbsInt(HashCode(url + Salt(attempt)))
  }

  /** Appends '0' while the key is shorter than len. */
  function PadKey(s: string, len: int): (r: string)
    ensures |s| < len ==> |r| == len
    ensures len <= |s| ==> |r| == |s|
    ensures |s| <= |r| && r[..|s|] == s
    ensures forall i :: |s| <= i < |r| ==> r[i] == PAD_CHAR
    decreases len - |s|
  {
    if |s| < len then PadKey(s + [PAD_CHAR], len) else s
  }

  /** The key an attempt computes and checks against the store, before truncation. */
  function Candidate(url: string, attempt: nat, len: int): (c: string)
    ensures var enc := EncodeAlphabetBase(AttemptHash(url, attempt));
      && len <= |c|
      && |enc| <= |c| && c[..|enc|] == enc
  {
    PadKey(EncodeAlphabetBase(AttemptHash(url, attempt)), len)
  }

  /** The key of each attempt for one URL and length. */
  function CandidateFamily(url: string, len: int): (keys: nat -> string)
    ensures forall k: nat :: keys(k) == Candidate(url, k, len)
  {
    (k: nat) => Candidate(url, k, len)
  }

  /**
   * Attempt k is where the loop stops: every earlier key was taken, and key k
   * is free or k is the tenth attempt.
   */
  predicate IsChosenAttempt(store: Store, keys: nat -> string, k: nat) {
    && k < MAX_ATTEMPTS
    && (forall j: nat :: j < k ==> ExistsByShortKey(store, keys(j)))
    && (!ExistsByShortKey(store, keys(k)) || k == MAX_ATTEMPTS - 1)
  }

  /** At most one attempt is the stopping one. */
  lemma ChosenAttemptUnique(store: Store, keys: nat -> string, k1: nat, k2: nat)
    requires IsChosenAttempt(store, keys, k1)
    requires IsChosenAttempt(store, keys, k2)
    ensures k1 == k2
  {
  }

  /** The stopping attempt, searched from attempt `from` on. */
  function ChooseAttempt(store: Store, keys: nat -> string, from: nat): (k: nat)
    requires from < MAX_ATTEMPTS
    requires forall j: nat :: j < from ==> ExistsByShortKey(store, keys(j))
    ensures from <= k
    ensures IsChosenAttempt(store, keys, k)
    decreases MAX_ATTEMPTS - from
  {
    if !ExistsByShortKey(store, keys(from)) || from == MAX_ATTEMPTS - 1 then
      from
    else
      ChooseAttempt(store, keys, from + 1)
  }

  /**
   * The do-while loop of createShortLinkWithLen, for any way of computing the
   * key of an attempt. attempts counts the existence checks made.
   */
  method ProbeKeys(store: Store, keys: nat -> string) returns (key: string, attempts: nat)
    ensures 1 <= attempts <= MAX_ATTEMPTS
    ensures IsChosenAttempt(store, keys, attempts - 1)
    ensures key == keys(attempts - 1)
    ensures attempts - 1 == ChooseAttempt(store, keys, 0)
  {
    attempts := 0;
    key := keys(attempts);
    attempts := attempts + 1;
    while ExistsByShortKey(store, key) && attempts < MAX_ATTEMPTS
      invariant 1 <= attempts <= MAX_ATTEMPTS
      invariant key == keys(attempts - 1)
      invariant forall j: nat :: j < attempts - 1 ==> ExistsByShortKey(store, keys(j))
      decreases MAX_ATTEMPTS - attempts
    {
      key := keys(attempts);
      attempts := attempts + 1;
    }
    ChosenAttemptUnique(store, keys, attempts - 1, ChooseAttempt(store, keys, 0));
  }

  /** The attempt the loop of createShortLinkWithLen stops at. */
  function StoppingAttempt(store: Store, url: string, len: int): (k: nat)
    ensures IsChosenAttempt(store, CandidateFamily(url, len), k)
  {
    ChooseAttempt(store, CandidateFamily(url, len), 0)
  }

  /** The padded key the loop ends with. */
  function CheckedKey(store: Store, url: string, len: int): (key: string)
  {
    Candidate(url, StoppingAttempt(store, url, len), len)
  }

  /** The loop run on the salted-hash keys of a URL ends with CheckedKey. */
  method GenerateCheckedKey(store: Store, url: string, len: int) returns (key: string, attempts: nat)
    ensures 1 <= attempts <= MAX_ATTEMPTS
    ensures forall j: nat :: j < attempts - 1 ==> ExistsByShortKey(store, Candidate(url, j, len))
    ensures !ExistsByShortKey(store, key) || attempts == MAX_ATTEMPTS
    ensures key == Candidate(url, attempts - 1, len) == CheckedKey(store, url, len)
  {
    var keys := CandidateFamily(url, len);
    key, attempts := ProbeKeys(store, keys);
  }

  /** Every candidate has at least len characters, all from ALPHABET, and is the encoding followed by '0's. */
  lemma CandidateShape(url: string, attempt: nat, len: int)
    ensures var enc := EncodeAlphabetBase(AttemptHash(url, attempt));
      var c := Candidate(url, attempt, len);
      && len <= |c|
      && |c| == (if |enc| < len then len else |enc|)
      && c[..|enc|] == enc
      && (forall i :: |enc| <= i < |c| ==> c[i] == PAD_CHAR)
      && AllInAlphabet(c)
  {
    var enc := EncodeAlphabetBase(AttemptHash(url, attempt));
    var c := Candidate(url, attempt, len);
    forall i | 0 <= i < |c|
      ensures IsAlphabetChar(c[i])
    {
      if i < |enc| {
        assert c[i] == c[..|enc|][i];
      }
    }
  }

  /** The stored key, the first len characters of a candidate, has exactly len characters from ALPHABET. */
  lemma TruncatedCandidateShape(url: string, attempt: nat, len: int)
    requires 0 <= len
    ensures len <= |Candidate(url, attempt, len)|
    ensures |Candidate(url, attempt, len)[..len]| == len
    ensures AllInAlphabet(Candidate(url, attempt, len)[..len])
  {
    CandidateShape(url, attempt, len);
  }

  /** For len of 6 or more the checked key already has exactly len characters, so truncation keeps it whole. */
  lemma CandidateIsTruncatedCandidateWhenLong(url: string, attempt: nat, len: int)
    requires 6 <= len
    ensures |Candidate(url, attempt, len)| == len
    ensures Candidate(url, attempt, len)[..len] == Candidate(url, attempt, len)
  {
    var h := AttemptHash(url, attempt);
    if 0 <= h {
      EncodedIntLength(h);
    }
    CandidateShape(url, attempt, len);
  }

  /** When the encoding is longer than len, only a proper prefix of the checked key is stored. */
  lemma TruncationDropsCheckedCharacters(url: string, attempt: nat, len: int)
    requires 0 <= len < |EncodeAlphabetBase(AttemptHash(url, attempt))|
    ensures |Candidate(url, attempt, len)[..len]| < |Candidate(url, attempt, len)|
  {
    CandidateShape(url, attempt, len);
  }

  /** A salted hash of INT_MIN stays negative under Math.abs, encodes to nothing, and the key is all '0'. */
  lemma MinHashGivesZeroKey(url: string, attempt: nat, len: int)
    requires HashCode(url + Salt(attempt)) == INT_MIN
    requires 0 <= len
    ensures Candidate(url, attempt, len) == seq(len, _ => PAD_CHAR)
  {
    CandidateShape(url, attempt, len);
  }
}
