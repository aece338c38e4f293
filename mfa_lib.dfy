/** Backup codes for multi-factor authentication: generation of single-use
    recovery codes with their SHA-256 digests, and validation of a submitted
    code against the stored digests, which retires the code on success.

    The two effects of the library are parameters here: the secure random
    source supplies `draws` (one 4-byte word per code), and SHA-256 is the
    function `sha256`, about which nothing is assumed except that it is a
    function (the same input always gives the same digest). */
module MfaLib {
  import opened BackupCodeTypes
  import Hex

  /** Four bytes drawn from the secure random source. */
  type Word = w: seq<Hex.uint8> | |w| == 4 witness [0, 0, 0, 0]

  /** A SHA-256 digest: 32 bytes. */
  type Digest = d: seq<Hex.uint8> | |d| == 32 witness seq(32, _ => 0)

  /** The largest length an array can have: `new Array(n)` throws a
      RangeError for any larger n. */
  const MaxArrayLength: nat := 0xFFFF_FFFF

  /** Number of codes generated when no count is given. */
  const DefaultCount: nat := 10

  /** A generated code is the hex text of one 4-byte word. */
  const CodeLength: nat := 8

  /** A digest is the hex text of 32 bytes. */
  const DigestTextLength: nat := 64

  predicate IsCodeText(s: string) {
    |s| == CodeLength && Hex.IsLowerHex(s)
  }

  predicate Distinct<T(==)>(xs: seq<T>) {
    forall i, j :: 0 <= i < j < |xs| ==> xs[i] != xs[j]
  }

  /** The length `Array.from({length: count})` asks for, for an integer
      count: the count clamped up to zero. */
  function ArrayLength(count: int): (n: nat)
    ensures n >= count && (n == 0 || n == count)
  {
    if count < 0 then 0 else count
  }

  /** How many 4-byte words generation draws: none when the length is
      refused before the first draw. */
  function DrawCount(count: int): (n: nat)
    ensures n <= MaxArrayLength
    ensures ArrayLength(count) <= MaxArrayLength ==> n == ArrayLength(count)
    ensures ArrayLength(count) > MaxArrayLength ==> n == 0
  {
    if ArrayLength(count) > MaxArrayLength then 0 else ArrayLength(count)
  }

  // ---------------------------------------------------------------------
  // Hashing

  /** The stored form of a code: its SHA-256 digest as lowercase hex. */
  function HashCode(sha256: string -> Digest, code: string): (h: string)
    ensures |h| == DigestTextLength && Hex.IsLowerHex(h)
  {
    Hex.Encode(sha256(code))
  }

  /** The hex step adds no collisions: two codes have the same stored form
      exactly when SHA-256 gives them the same digest. */
  lemma HashCodeEqual(sha256: string -> Digest, a: string, b: string)
    ensures HashCode(sha256, a) == HashCode(sha256, b) <==> sha256(a) == sha256(b)
  {
    Hex.EncodeInjective(sha256(a), sha256(b));
  }

  // ---------------------------------------------------------------------
  // Generation

  /** What generation returns: the codes, or the RangeError that
      `Array.from` throws for a length beyond `MaxArrayLength`. */
  datatype Generation = Generated(value: BackupCode) | RangeError

  /** One code per draw, the i-th being the hex text of the i-th draw, and
      their digests at the same positions. */
  function CodesFromDraws(draws: seq<Word>, sha256: string -> Digest): (r: BackupCode)
    ensures |r.backupCodes| == |r.hashedCodes| == |draws|
    ensures forall i :: 0 <= i < |r.backupCodes| ==>
      IsCodeText(r.backupCodes[i]) && Hex.Decode(r.backupCodes[i]) == draws[i]
    ensures forall i :: 0 <= i < |r.hashedCodes| ==> r.hashedCodes[i] == HashCode(sha256, r.backupCodes[i])
  {
    var backupCodes := seq(|draws|, i requires 0 <= i < |draws| => Hex.Encode(draws[i]));
    var hashedCodes := seq(|backupCodes|, i requires 0 <= i < |backupCodes| => HashCode(sha256, backupCodes[i]));
    assert forall i :: 0 <= i < |draws| ==> Hex.Decode(backupCodes[i]) == draws[i] by {
      forall i | 0 <= i < |draws| {
        Hex.DecodeEncode(draws[i]);
      }
    }
    BackupCode(backupCodes, hashedCodes)
  }

  /** `count` codes and their digests, or a RangeError when the count is
      beyond the largest array length. */
  function GenerateBackupCodes(count: int, draws: seq<Word>, sha256: string -> Digest): (r: Generation)
    requires |draws| == DrawCount(count)
    ensures r.RangeError? <==> count > MaxArrayLength
    ensures r.Generated? ==> |r.value.backupCodes| == |r.value.hashedCodes| == ArrayLength(count)
    ensures r.Generated? ==> forall i :: 0 <= i < |r.value.backupCodes| ==>
      IsCodeText(r.value.backupCodes[i]) && Hex.Decode(r.value.backupCodes[i]) == draws[i]
    ensures r.Generated? ==> forall i :: 0 <= i < |r.value.hashedCodes| ==>
      r.value.hashedCodes[i] == HashCode(sha256, r.value.backupCodes[i])
  {
    if ArrayLength(count) > MaxArrayLength then RangeError
    else Generated(CodesFromDraws(draws, sha256))
  }

  /** Generation with the count omitted. */
  function GenerateDefaultBackupCodes(draws: seq<Word>, sha256: string -> Digest): (r: Generation)
    requires |draws| == DefaultCount
    ensures r.Generated? && |r.value.backupCodes| == |r.value.hashedCodes| == 10
  {
    GenerateBackupCodes(DefaultCount, draws, sha256)
  }

  /** A count up to the largest array length is met exactly, by the codes of
      the draws; a negative one gives no codes; a larger one is a RangeError. */
  lemma GenerateCount(count: int, draws: seq<Word>, sha256: string -> Digest)
    requires |draws| == DrawCount(count)
    ensures 0 <= count <= MaxArrayLength ==>
      && GenerateBackupCodes(count, draws, sha256) == Generated(CodesFromDraws(draws, sha256))
      && |CodesFromDraws(draws, sha256).backupCodes| == count
      && |CodesFromDraws(draws, sha256).hashedCodes| == count
    ensures count < 0 ==> GenerateBackupCodes(count, draws, sha256) == Generated(BackupCode([], []))
    ensures count > MaxArrayLength ==> GenerateBackupCodes(count, draws, sha256) == RangeError
  {
  }

  /** Two generated codes are equal exactly when their draws are: the codes
      are as unique as the random words behind them. */
  lemma GeneratedCodesDistinct(draws: seq<Word>, sha256: string -> Digest)
    ensures var codes := CodesFromDraws(draws, sha256).backupCodes;
      forall i, j :: 0 <= i < |codes| && 0 <= j < |codes| ==> (codes[i] == codes[j] <==> draws[i] == draws[j])
  {
  }

  /** The digests are pairwise distinct when SHA-256 has no collision among
      the generated codes. */
  lemma GeneratedHashesDistinct(draws: seq<Word>, sha256: string -> Digest)
    requires var codes := CodesFromDraws(draws, sha256).backupCodes;
      forall i, j :: 0 <= i < j < |codes| ==> sha256(codes[i]) != sha256(codes[j])
    ensures Distinct(CodesFromDraws(draws, sha256).hashedCodes)
  {
    var r := CodesFromDraws(draws, sha256);
    forall i, j | 0 <= i < j < |r.hashedCodes|
      ensures r.hashedCodes[i] != r.hashedCodes[j]
    {
      HashCodeEqual(sha256, r.backupCodes[i], r.backupCodes[j]);
    }
  }

  // ---------------------------------------------------------------------
  // Validation

  /** `xs` with every element equal to `d` filtered out. */
  function Without<T(==)>(xs: seq<T>, d: T): (r: seq<T>)
    ensures d !in r && |r| <= |xs|
  {
    if xs == [] then []
    else (if xs[0] == d then [] else [xs[0]]) + Without(xs[1..], d)
  }

  /** Filtering removes every copy of `d` and keeps every other element with
      its number of occurrences. */
  lemma {:induction false} WithoutCounts<T>(xs: seq<T>, d: T)
    ensures multiset(Without(xs, d)) == multiset(xs)[d := 0]
  {
    if xs != [] {
      assert xs == [xs[0]] + xs[1..];
      WithoutCounts(xs[1..], d);
    }
  }

  /** Filtering keeps the relative order: it distributes over concatenation. */
  lemma {:induction false} WithoutAppend<T>(a: seq<T>, b: seq<T>, d: T)
    ensures Without(a + b, d) == Without(a, d) + Without(b, d)
  {
    if a == [] {
      assert a + b == b;
    } else {
      var head := if a[0] == d then [] else [a[0]];
      assert (a + b)[1..] == a[1..] + b;
      assert Without(a + b, d) == head + Without(a[1..] + b, d);
      WithoutAppend(a[1..], b, d);
      assert Without(a, d) == head + Without(a[1..], d);
      assert head + (Without(a[1..], d) + Without(b, d)) == (head + Without(a[1..], d)) + Without(b, d);
    }
  }

  /** Filtering out a value that is absent changes nothing. */
  lemma {:induction false} WithoutAbsent<T>(xs: seq<T>, d: T)
    requires d !in xs
    ensures Without(xs, d) == xs
  {
    if xs != [] {
      WithoutAbsent(xs[1..], d);
    }
  }

  /** Filtering removes exactly the occurrences of `d`. */
  lemma {:induction false} WithoutLength<T>(xs: seq<T>, d: T)
    ensures |Without(xs, d)| == |xs| - multiset(xs)[d]
  {
    if xs != [] {
      assert xs == [xs[0]] + xs[1..];
      WithoutLength(xs[1..], d);
    }
  }

  /** In a list without duplicates, the element at `i` occurs nowhere else. */
  lemma DistinctSplit<T>(xs: seq<T>, i: nat)
    requires Distinct(xs) && i < |xs|
    ensures xs[i] !in xs[..i] && xs[i] !in xs[i + 1..]
  {
  }

  /** Filtering out a value that occurs once removes that one occurrence. */
  lemma {:induction false} WithoutSingle<T>(front: seq<T>, d: T, back: seq<T>)
    requires d !in front && d !in back
    ensures Without(front + [d] + back, d) == front + back
  {
    var xs := front + [d] + back;
    if front == [] {
      assert xs[0] == d && xs[1..] == back;
      WithoutAbsent(back, d);
    } else {
      assert xs[0] == front[0] != d;
      assert xs[1..] == front[1..] + [d] + back;
      WithoutSingle(front[1..], d, back);
      assert [front[0]] + (front[1..] + back) == front + back;
    }
  }

  /** In a list without duplicates, filtering out the element at `i` removes
      that one position and nothing else. */
  lemma WithoutDistinct<T>(xs: seq<T>, i: nat)
    requires Distinct(xs) && i < |xs|
    ensures Without(xs, xs[i]) == xs[..i] + xs[i + 1..]
    ensures |Without(xs, xs[i])| == |xs| - 1
  {
    DistinctSplit(xs, i);
    assert xs == xs[..i] + [xs[i]] + xs[i + 1..];
    WithoutSingle(xs[..i], xs[i], xs[i + 1..]);
  }

  /** Accepts `inputCode` exactly when its digest is stored, and then returns
      the stored digests with that digest retired; otherwise returns no list. */
  function ValidateBackupCode(hashCodes: seq<string>, inputCode: string, sha256: string -> Digest): (r: UpdatedBackupCode)
    ensures r.status <==> HashCode(sha256, inputCode) in hashCodes
    ensures r.status <==> r.backupCodes.Some?
    ensures r.status ==> HashCode(sha256, inputCode) !in r.backupCodes.value
    ensures r.status ==> multiset(r.backupCodes.value) == multiset(hashCodes)[HashCode(sha256, inputCode) := 0]
    ensures hashCodes == [] ==> r == UpdatedBackupCode(false, None)
  {
    var hashedInput := HashCode(sha256, inputCode);
    WithoutCounts(hashCodes, hashedInput);
    if hashedInput in hashCodes then
      UpdatedBackupCode(true, Some(Without(hashCodes, hashedInput)))
    else
      UpdatedBackupCode(false, None)
  }

  /** On success the remaining list is the stored list minus every copy of
      the digest, in the original order; without duplicates that is exactly
      one entry fewer. */
  lemma ValidateRemaining(hashCodes: seq<string>, inputCode: string, sha256: string -> Digest)
    requires ValidateBackupCode(hashCodes, inputCode, sha256).status
    ensures var d := HashCode(sha256, inputCode);
      var rest := ValidateBackupCode(hashCodes, inputCode, sha256).backupCodes.value;
      && rest == Without(hashCodes, d)
      && |rest| == |hashCodes| - multiset(hashCodes)[d]
      && (forall x :: x != d ==> multiset(rest)[x] == multiset(hashCodes)[x])
      && (Distinct(hashCodes) ==> |rest| == |hashCodes| - 1)
  {
    var d := HashCode(sha256, inputCode);
    WithoutCounts(hashCodes, d);
    WithoutLength(hashCodes, d);
    if Distinct(hashCodes) {
      var i :| 0 <= i < |hashCodes| && hashCodes[i] == d;
      WithoutDistinct(hashCodes, i);
    }
  }

  /** Single use: once a code has been accepted, it is refused against the
      list that acceptance returned. */
  lemma SingleUse(hashCodes: seq<string>, inputCode: string, sha256: string -> Digest)
    requires ValidateBackupCode(hashCodes, inputCode, sha256).status
    ensures ValidateBackupCode(ValidateBackupCode(hashCodes, inputCode, sha256).backupCodes.value, inputCode, sha256)
      == UpdatedBackupCode(false, None)
  {
  }

  /** Accepting one code retires no other: a code with a different digest is
      accepted afterwards exactly when it was accepted before. */
  lemma OtherCodesSurvive(hashCodes: seq<string>, used: string, other: string, sha256: string -> Digest)
    requires ValidateBackupCode(hashCodes, used, sha256).status
    requires sha256(other) != sha256(used)
    ensures ValidateBackupCode(ValidateBackupCode(hashCodes, used, sha256).backupCodes.value, other, sha256).status
      == ValidateBackupCode(hashCodes, other, sha256).status
  {
    HashCodeEqual(sha256, used, other);
    var d := HashCode(sha256, other);
    var rest := ValidateBackupCode(hashCodes, used, sha256).backupCodes.value;
    assert multiset(rest)[d] == multiset(hashCodes)[d];
    assert d in rest <==> d in multiset(rest);
    assert d in hashCodes <==> d in multiset(hashCodes);
  }

  /** Round trip: every code of a generation is accepted against that
      generation's digests, and its digest is gone from the returned list;
      with pairwise distinct digests, exactly its own entry is gone. */
  lemma GenerateThenValidate(draws: seq<Word>, sha256: string -> Digest, i: nat)
    requires i < |draws|
    ensures var g := CodesFromDraws(draws, sha256);
      var r := ValidateBackupCode(g.hashedCodes, g.backupCodes[i], sha256);
      && r.status
      && g.hashedCodes[i] !in r.backupCodes.value
      && (Distinct(g.hashedCodes) ==>
            r.backupCodes.value == g.hashedCodes[..i] + g.hashedCodes[i + 1..]
            && |r.backupCodes.value| == |g.hashedCodes| - 1)
  {
    var g := CodesFromDraws(draws, sha256);
    assert g.hashedCodes[i] == HashCode(sha256, g.backupCodes[i]);
    if Distinct(g.hashedCodes) {
      WithoutDistinct(g.hashedCodes, i);
    }
  }

  /** Any submitted text whose SHA-256 digest differs from those of all
      issued codes is refused with no list, whatever its shape: an
      8-digit hex text that was never issued as much as any other text. */
  lemma RejectsUnissued(draws: seq<Word>, sha256: string -> Digest, inputCode: string)
    requires var codes := CodesFromDraws(draws, sha256).backupCodes;
      forall i :: 0 <= i < |codes| ==> sha256(inputCode) != sha256(codes[i])
    ensures ValidateBackupCode(CodesFromDraws(draws, sha256).hashedCodes, inputCode, sha256)
      == UpdatedBackupCode(false, None)
  {
    var g := CodesFromDraws(draws, sha256);
    forall i | 0 <= i < |g.hashedCodes| ensures g.hashedCodes[i] != HashCode(sha256, inputCode) {
      HashCodeEqual(sha256, g.backupCodes[i], inputCode);
    }
  }

  /** Submits `inputCodes` one after another, each against the list the
      previous acceptance returned; `None` as soon as one is refused. */
  function ConsumeAll(hashCodes: seq<string>, inputCodes: seq<string>, sha256: string -> Digest): Option<seq<string>>
    decreases |inputCodes|
  {
    if inputCodes == [] then Some(hashCodes)
    else
      var r := ValidateBackupCode(hashCodes, inputCodes[0], sha256);
      if r.status then ConsumeAll(r.backupCodes.value, inputCodes[1..], sha256) else None
  }

  lemma DistinctTail<T>(xs: seq<T>)
    requires Distinct(xs) && xs != []
    ensures Distinct(xs[1..])
  {
    forall i, j | 0 <= i < j < |xs| - 1 ensures xs[1..][i] != xs[1..][j] {
      assert xs[1..][i] == xs[i + 1] && xs[1..][j] == xs[j + 1];
    }
  }

  /** A code whose digest heads a list without duplicates is accepted, and
      the rest of the list is returned. */
  lemma ValidateHead(hashCodes: seq<string>, inputCode: string, sha256: string -> Digest)
    requires Distinct(hashCodes) && hashCodes != []
    requires hashCodes[0] == HashCode(sha256, inputCode)
    ensures ValidateBackupCode(hashCodes, inputCode, sha256) == UpdatedBackupCode(true, Some(hashCodes[1..]))
    ensures Distinct(hashCodes[1..])
  {
    WithoutDistinct(hashCodes, 0);
    assert hashCodes[..0] + hashCodes[1..] == hashCodes[1..];
    DistinctTail(hashCodes);
  }

  /** With pairwise distinct digests, codes whose digests head the list can be
      used one after another, and what remains is the digests of the others. */
  lemma {:induction false} ConsumeInOrder(hashCodes: seq<string>, codes: seq<string>, sha256: string -> Digest)
    requires |codes| <= |hashCodes| && Distinct(hashCodes)
    requires forall i :: 0 <= i < |codes| ==> hashCodes[i] == HashCode(sha256, codes[i])
    ensures ConsumeAll(hashCodes, codes, sha256) == Some(hashCodes[|codes|..])
  {
    if codes != [] {
      ValidateHead(hashCodes, codes[0], sha256);
      var rest, later := hashCodes[1..], codes[1..];
      forall i | 0 <= i < |later| ensures rest[i] == HashCode(sha256, later[i]) {
        assert rest[i] == hashCodes[i + 1] && later[i] == codes[i + 1];
      }
      ConsumeInOrder(rest, later, sha256);
      assert rest[|later|..] == hashCodes[|codes|..];
    }
  }

  /** Using the first k codes of a generation in order succeeds each time when
      the digests are pairwise distinct, and leaves the digests of the rest. */
  lemma GenerateThenConsume(draws: seq<Word>, sha256: string -> Digest, k: nat)
    requires k <= |draws|
    requires Distinct(CodesFromDraws(draws, sha256).hashedCodes)
    ensures var g := CodesFromDraws(draws, sha256);
      ConsumeAll(g.hashedCodes, g.backupCodes[..k], sha256) == Some(g.hashedCodes[k..])
  {
    var g := CodesFromDraws(draws, sha256);
    ConsumeInOrder(g.hashedCodes, g.backupCodes[..k], sha256);
  }

  /** The draws of the worked example. */
  function ScenarioDraws(): (draws: seq<Word>)
    ensures |draws| == 3
  {
    [[0xa1, 0xb2, 0xc3, 0xd4], [0xe5, 0xf6, 0xa7, 0xb8], [0x11, 0x22, 0x33, 0x44]]
  }

  /** A worked example: three draws give the codes "a1b2c3d4", "e5f6a7b8" and
      "11223344", stored as their digests in the same order. */
  lemma ScenarioGenerate(sha256: string -> Digest)
    ensures GenerateBackupCodes(3, ScenarioDraws(), sha256)
      == Generated(BackupCode(["a1b2c3d4", "e5f6a7b8", "11223344"],
                              [HashCode(sha256, "a1b2c3d4"), HashCode(sha256, "e5f6a7b8"), HashCode(sha256, "11223344")]))
  {
    ScenarioCodes();
    var g := CodesFromDraws(ScenarioDraws(), sha256);
    assert g.backupCodes == ["a1b2c3d4", "e5f6a7b8", "11223344"];
  }

  /** Continuing the worked example: submitting the second code retires only
      its digest, and a text that was never issued is refused (given that
      SHA-256 separates the four texts involved). */
  lemma ScenarioValidate(sha256: string -> Digest)
    requires sha256("a1b2c3d4") != sha256("e5f6a7b8")
    requires sha256("11223344") != sha256("e5f6a7b8")
    requires sha256("ffffffff") != sha256("a1b2c3d4")
    requires sha256("ffffffff") != sha256("e5f6a7b8")
    requires sha256("ffffffff") != sha256("11223344")
    ensures var hashes := GenerateBackupCodes(3, ScenarioDraws(), sha256).value.hashedCodes;
      && ValidateBackupCode(hashes, "e5f6a7b8", sha256)
           == UpdatedBackupCode(true, Some([HashCode(sha256, "a1b2c3d4"), HashCode(sha256, "11223344")]))
      && ValidateBackupCode(hashes, "ffffffff", sha256) == UpdatedBackupCode(false, None)
  {
    ScenarioGenerate(sha256);
    var h0, h1, h2 := HashCode(sha256, "a1b2c3d4"), HashCode(sha256, "e5f6a7b8"), HashCode(sha256, "11223344");
    var hf := HashCode(sha256, "ffffffff");
    var hashes := [h0, h1, h2];
    HashCodeEqual(sha256, "a1b2c3d4", "e5f6a7b8");
    HashCodeEqual(sha256, "11223344", "e5f6a7b8");
    HashCodeEqual(sha256, "ffffffff", "a1b2c3d4");
    HashCodeEqual(sha256, "ffffffff", "e5f6a7b8");
    HashCodeEqual(sha256, "ffffffff", "11223344");
    assert h1 in hashes && hf !in hashes;
    WithoutSingle([h0], h1, [h2]);
    assert [h0] + [h1] + [h2] == hashes;
    assert Without(hashes, h1) == [h0, h2];
  }

  /** The hex texts of the three words of the worked example. */
  lemma ScenarioCodes()
    ensures Hex.Encode([0xa1, 0xb2, 0xc3, 0xd4]) == "a1b2c3d4"
    ensures Hex.Encode([0xe5, 0xf6, 0xa7, 0xb8]) == "e5f6a7b8"
    ensures Hex.Encode([0x11, 0x22, 0x33, 0x44]) == "11223344"
  {
    // Dafny computes the three texts from the definition of Hex.Encode.
  }

  /** The hex text of a word, digit by digit. */
  lemma EncodeWord(w: Word)
    ensures Hex.Encode(w) == [
      Hex.DigitChar(Hex.HighNibble(w[0])), Hex.DigitChar(Hex.LowNibble(w[0])),
      Hex.DigitChar(Hex.HighNibble(w[1])), Hex.DigitChar(Hex.LowNibble(w[1])),
      Hex.DigitChar(Hex.HighNibble(w[2])), Hex.DigitChar(Hex.LowNibble(w[2])),
      Hex.DigitChar(Hex.HighNibble(w[3])), Hex.DigitChar(Hex.LowNibble(w[3]))]
  {
    Hex.EncodeAt(w, 0);
    Hex.EncodeAt(w, 1);
    Hex.EncodeAt(w, 2);
    Hex.EncodeAt(w, 3);
  }
}
