/** Block headers and their hashes: validateBlockHash in core/transaction/utils.go and isBlockExtends in
    zcncore/transaction_base.go hash the same eight fields, joined by colons. */
module BlockHashing {
  import opened Hashing

  datatype Header = Header(
    version: string, creationDate: int, hash: string, previousHash: string, minerID: string, round: int,
    roundRandomSeed: int, merkleTreeRoot: string, stateChangesCount: int, stateHash: string,
    receiptMerkleTreeRoot: string, numberOfTxns: int)

  // ----- decimal numbers

  function Digit(d: nat): char
    requires d < 10
  {
    ('0' as int + d) as char
  }

  function FormatNat(n: nat): string {
    if n < 10 then [Digit(n)] else FormatNat(n / 10) + [Digit(n % 10)]
  }

  /** strconv.FormatInt(n, 10). */
  function FormatInt(n: int): string {
    if n < 0 then ['-'] + FormatNat(-n) else FormatNat(n)
  }

  predicate IsDigit(c: char) {
    '0' <= c <= '9'
  }

  /** The number that a string of digits denotes. */
  function ParseNat(s: string): nat
    requires forall i :: 0 <= i < |s| ==> IsDigit(s[i])
  {
    if s == [] then 0
    else
      var last := s[|s| - 1];
      assert IsDigit(last);
      10 * ParseNat(s[..|s| - 1]) + (last as int - '0' as int)
  }

  lemma {:induction false} ParseFormat(n: nat)
    ensures FormatNat(n) != [] && forall i :: 0 <= i < |FormatNat(n)| ==> IsDigit(FormatNat(n)[i])
    ensures ParseNat(FormatNat(n)) == n
  {
    if n < 10 {
      assert FormatNat(n)[..0] == [];
    } else {
      ParseFormat(n / 10);
      assert FormatNat(n)[..|FormatNat(n)| - 1] == FormatNat(n / 10);
    }
  }

  lemma FormatIntInjective(a: int, b: int)
    requires FormatInt(a) == FormatInt(b)
    ensures a == b
  {
    ParseFormat(if a < 0 then -a else a);
    ParseFormat(if b < 0 then -b else b);
    assert IsDigit(FormatNat(if a < 0 then -a else a)[0]) && IsDigit(FormatNat(if b < 0 then -b else b)[0]);
    if a < 0 && b < 0 {
      assert FormatInt(a)[1..] == FormatNat(-a) && FormatInt(b)[1..] == FormatNat(-b);
    }
  }

  // ----- the serialisation

  predicate ColonFree(s: string) {
    ':' !in s
  }

  lemma FormatIntColonFree(n: int)
    ensures ColonFree(FormatInt(n))
  {
    ParseFormat(if n < 0 then -n else n);
  }

  /** The fields with a colon between neighbours. */
  function Join(fields: seq<string>): string {
    if fields == [] then ""
    else
      var last := |fields| - 1;
      if last == 0 then fields[0] else Join(fields[..last]) + ":" + fields[last]
  }

  /** The fields that are hashed, in their order. */
  function HashedFields(b: Header): seq<string> {
    [b.minerID, b.previousHash, FormatInt(b.creationDate), FormatInt(b.round), FormatInt(b.roundRandomSeed),
     FormatInt(b.stateChangesCount), b.merkleTreeRoot, b.receiptMerkleTreeRoot]
  }

  function Serialize(b: Header): string {
    Join(HashedFields(b))
  }

  predicate Validates(hash: string -> string, b: Header) {
    hash(Serialize(b)) == b.hash
  }

  /** b carries the hash that its other fields have after a block with this hash. */
  predicate IsBlockExtends(hash: string -> string, previousHash: string, b: Header) {
    Validates(hash, b.(previousHash := previousHash))
  }

  /** validateBlockHash: the builder is filled piece by piece. */
  method ValidateBlockHash(hash: string -> string, b: Header) returns (ok: bool)
    ensures ok == Validates(hash, b) == (b.hash == hash(HashedText(b.previousHash, b)))
  {
    SerializeIsText(b);
    ghost var fields := HashedFields(b);
    var builder := b.minerID;
    JoinStep(fields, 1);
    builder := builder + ":" + b.previousHash;
    JoinStep(fields, 2);
    builder := builder + ":" + FormatInt(b.creationDate);
    JoinStep(fields, 3);
    builder := builder + ":" + FormatInt(b.round);
    JoinStep(fields, 4);
    builder := builder + ":" + FormatInt(b.roundRandomSeed);
    JoinStep(fields, 5);
    builder := builder + ":" + FormatInt(b.stateChangesCount);
    JoinStep(fields, 6);
    builder := builder + ":" + b.merkleTreeRoot;
    JoinStep(fields, 7);
    builder := builder + ":" + b.receiptMerkleTreeRoot;
    assert fields[..8] == fields && fields[..1] == [b.minerID];
    ok := hash(builder) == b.hash;
  }

  lemma JoinStep(fields: seq<string>, i: nat)
    requires 0 < i < |fields|
    ensures Join(fields[..i + 1]) == Join(fields[..i]) + ":" + fields[i]
  {
    assert fields[..i + 1][..i] == fields[..i];
  }

  /** Length of what follows the last colon. */
  function TailLength(s: string): nat {
    if s == [] || s[|s| - 1] == ':' then 0 else 1 + TailLength(s[..|s| - 1])
  }

  lemma {:induction false} TailLengthAfter(a: string, rest: string)
    requires ColonFree(rest)
    ensures TailLength(a + ":" + rest) == |rest|
    decreases |rest|
  {
    if rest != [] {
      var front := rest[..|rest| - 1];
      assert (a + ":" + rest)[..|a| + |rest|] == a + ":" + front;
      TailLengthAfter(a, front);
    }
  }

  /** The last colon starts the last field. */
  lemma SplitAtColon(a: string, rest: string, b: string, others: string)
    requires ColonFree(rest) && ColonFree(others)
    requires a + ":" + rest == b + ":" + others
    ensures a == b && rest == others
  {
    TailLengthAfter(a, rest);
    TailLengthAfter(b, others);
    var s, t := a + ":" + rest, b + ":" + others;
    assert a == s[..|a|] && b == t[..|b|];
    assert rest == s[|a| + 1..] && others == t[|b| + 1..];
  }

  lemma {:induction false} JoinInjective(a: seq<string>, b: seq<string>)
    requires |a| == |b| && Join(a) == Join(b)
    requires forall i :: 0 <= i < |a| ==> ColonFree(a[i]) && ColonFree(b[i])
    ensures a == b
    decreases |a|
  {
    if |a| > 1 {
      var last := |a| - 1;
      SplitAtColon(Join(a[..last]), a[last], Join(b[..last]), b[last]);
      JoinInjective(a[..last], b[..last]);
      assert a == a[..last] + [a[last]] && b == b[..last] + [b[last]];
    }
  }

  ghost predicate FieldsColonFree(b: Header) {
    ColonFree(b.minerID) && ColonFree(b.previousHash) && ColonFree(b.merkleTreeRoot) && ColonFree(b.receiptMerkleTreeRoot)
  }

  /** The two headers agree on everything that is hashed. */
  ghost predicate SameHashed(a: Header, b: Header) {
    && a.minerID == b.minerID && a.previousHash == b.previousHash && a.creationDate == b.creationDate
    && a.round == b.round && a.roundRandomSeed == b.roundRandomSeed && a.stateChangesCount == b.stateChangesCount
    && a.merkleTreeRoot == b.merkleTreeRoot && a.receiptMerkleTreeRoot == b.receiptMerkleTreeRoot
  }

  // ----- counting colons

  function Colons(s: string): nat {
    if s == "" then 0 else Colons(s[..|s| - 1]) + if s[|s| - 1] == ':' then 1 else 0
  }

  function AllColons(fields: seq<string>): nat {
    if fields == [] then 0 else AllColons(fields[..|fields| - 1]) + Colons(fields[|fields| - 1])
  }

  lemma {:induction false} ColonsConcat(a: string, b: string)
    ensures Colons(a + b) == Colons(a) + Colons(b)
    decreases |b|
  {
    if b == "" {
      assert a + b == a;
    } else {
      assert (a + b)[..|a + b| - 1] == a + b[..|b| - 1];
      ColonsConcat(a, b[..|b| - 1]);
    }
  }

  lemma {:induction false} NoColons(s: string)
    ensures Colons(s) == 0 <==> ColonFree(s)
  {
    if s != "" {
      var front, last := s[..|s| - 1], s[|s| - 1];
      NoColons(front);
      assert s == front + [last];
    }
  }

  lemma {:induction false} NoColonsAnywhere(fields: seq<string>)
    ensures AllColons(fields) == 0 <==> forall i :: 0 <= i < |fields| ==> ColonFree(fields[i])
  {
    if fields != [] {
      var front, last := fields[..|fields| - 1], fields[|fields| - 1];
      NoColonsAnywhere(front);
      NoColons(last);
      assert fields == front + [last];
    }
  }

  /** Joining adds one colon between neighbours. */
  lemma {:induction false} JoinColons(fields: seq<string>)
    requires fields != []
    ensures Colons(Join(fields)) == AllColons(fields) + |fields| - 1
  {
    var front, last := fields[..|fields| - 1], fields[|fields| - 1];
    if front == [] {
      assert AllColons(front) == 0;
    } else {
      JoinColons(front);
      ColonsConcat(Join(front), ":");
      assert (":")[..0] == "";
      ColonsConcat(Join(front) + ":", last);
    }
  }

  lemma FormattedColonFree(b: Header)
    ensures forall i :: 2 <= i < 6 ==> ColonFree(HashedFields(b)[i])
  {
    FormatIntColonFree(b.creationDate);
    FormatIntColonFree(b.round);
    FormatIntColonFree(b.roundRandomSeed);
    FormatIntColonFree(b.stateChangesCount);
  }

  lemma HashedFieldsColonFree(b: Header)
    ensures FieldsColonFree(b) <==> forall i :: 0 <= i < 8 ==> ColonFree(HashedFields(b)[i])
  {
    FormattedColonFree(b);
    var x := HashedFields(b);
    assert x[0] == b.minerID && x[1] == b.previousHash && x[6] == b.merkleTreeRoot && x[7] == b.receiptMerkleTreeRoot;
  }

  /** A header that serialises like a colon-free one is colon-free as well. */
  lemma ColonFreeToo(a: Header, b: Header)
    requires FieldsColonFree(a) && Serialize(a) == Serialize(b)
    ensures FieldsColonFree(b)
  {
    HashedFieldsColonFree(a);
    HashedFieldsColonFree(b);
    NoColonsAnywhere(HashedFields(a));
    NoColonsAnywhere(HashedFields(b));
    JoinColons(HashedFields(a));
    JoinColons(HashedFields(b));
  }

  /** The serialisation of a header without colons in its string fields is that of no other hashed fields. */
  lemma SerializeInjective(a: Header, b: Header)
    requires FieldsColonFree(a) && Serialize(a) == Serialize(b)
    ensures SameHashed(a, b)
  {
    var x, y := HashedFields(a), HashedFields(b);
    ColonFreeToo(a, b);
    HashedFieldsColonFree(a);
    HashedFieldsColonFree(b);
    JoinInjective(x, y);
    assert x[0] == y[0] && x[1] == y[1] && x[6] == y[6] && x[7] == y[7];
    assert x[2] == y[2] && x[3] == y[3] && x[4] == y[4] && x[5] == y[5];
    FormatIntInjective(a.creationDate, b.creationDate);
    FormatIntInjective(a.round, b.round);
    FormatIntInjective(a.roundRandomSeed, b.roundRandomSeed);
    FormatIntInjective(a.stateChangesCount, b.stateChangesCount);
  }

  // ----- where a colon can move

  lemma {:induction false} SameFrom(x: seq<string>, y: seq<string>, from: nat, n: nat)
    requires |x| == |y| && 0 < from <= n <= |x|
    requires Join(x[..from]) == Join(y[..from]) && forall i :: from <= i < |x| ==> x[i] == y[i]
    ensures Join(x[..n]) == Join(y[..n])
    decreases n
  {
    if n > from {
      SameFrom(x, y, from, n - 1);
      JoinStep(x, n - 1);
      JoinStep(y, n - 1);
    }
  }

  lemma JoinUpToPair(fields: seq<string>, k: nat)
    requires k + 1 < |fields|
    ensures var pair := fields[k] + ":" + fields[k + 1];
            Join(fields[..k + 2]) == if k == 0 then pair else Join(fields[..k]) + ":" + pair
  {
    JoinStep(fields, k + 1);
    if k == 0 {
      assert fields[..1] == [fields[0]];
    } else {
      JoinStep(fields, k);
      JoinRegrouped(Join(fields[..k]), fields[k], fields[k + 1]);
    }
  }

  lemma JoinRegrouped(start: string, left: string, right: string)
    ensures start + ":" + left + ":" + right == start + ":" + (left + ":" + right)
  {
  }

  /** Equal joins follow from equal joins of two neighbouring fields. */
  lemma JoinedPair(x: seq<string>, y: seq<string>, k: nat)
    requires |x| == |y| && k + 1 < |x| && forall i :: 0 <= i < |x| && i != k && i != k + 1 ==> x[i] == y[i]
    requires x[k] + ":" + x[k + 1] == y[k] + ":" + y[k + 1]
    ensures Join(x) == Join(y)
  {
    hide Join;
    assert x[..k] == y[..k];
    JoinUpToPair(x, k);
    JoinUpToPair(y, k);
    SameFrom(x, y, k + 2, |x|);
    assert x[..|x|] == x && y[..|y|] == y;
  }

  /** A colon inside one of two neighbouring fields can take the place of the colon between them. */
  lemma MoveColon(left: string, right: string) returns (l: string, r: string)
    requires !ColonFree(left) || !ColonFree(right)
    ensures l + ":" + r == left + ":" + right && l != left
  {
    if !ColonFree(left) {
      var k :| 0 <= k < |left| && left[k] == ':';
      l, r := left[..k], left[k + 1..] + ":" + right;
      assert left == left[..k] + ":" + left[k + 1..];
    } else {
      var k :| 0 <= k < |right| && right[k] == ':';
      l, r := left + ":" + right[..k], right[k + 1..];
      assert right == right[..k] + ":" + right[k + 1..];
    }
  }

  /** With a colon in a string field there is a different header with the same serialisation. */
  lemma ColonsCollide(a: Header) returns (b: Header)
    requires !FieldsColonFree(a)
    ensures Serialize(a) == Serialize(b) && !SameHashed(a, b)
  {
    if !ColonFree(a.minerID) || !ColonFree(a.previousHash) {
      var l, r := MoveColon(a.minerID, a.previousHash);
      b := a.(minerID := l, previousHash := r);
      JoinedPair(HashedFields(a), HashedFields(b), 0);
    } else {
      var l, r := MoveColon(a.merkleTreeRoot, a.receiptMerkleTreeRoot);
      b := a.(merkleTreeRoot := l, receiptMerkleTreeRoot := r);
      JoinedPair(HashedFields(a), HashedFields(b), 6);
    }
  }

  /** A header is told apart from all others by its serialisation exactly when its string fields have no colon. */
  lemma TellsApartIffColonFree(a: Header)
    ensures FieldsColonFree(a) <==> forall b :: Serialize(a) == Serialize(b) ==> SameHashed(a, b)
  {
    if FieldsColonFree(a) {
      forall b | Serialize(a) == Serialize(b)
        ensures SameHashed(a, b)
      {
        SerializeInjective(a, b);
      }
    } else {
      var b := ColonsCollide(a);
    }
  }

  // ----- what the serialisation says

  /** The parts of a string between its colons. */
  function Cut(s: string): (parts: seq<string>)
    ensures |parts| >= 1
  {
    if s == "" then [""]
    else
      var front, last := Cut(s[..|s| - 1]), s[|s| - 1];
      if last == ':' then front + [""] else front[|front| - 1 := front[|front| - 1] + [last]]
  }

  lemma {:induction false} CutPart(s: string, part: string)
    requires ColonFree(part)
    ensures var parts := Cut(s); Cut(s + part) == parts[|parts| - 1 := parts[|parts| - 1] + part]
    decreases |part|
  {
    if part == "" {
      var parts := Cut(s);
      assert s + part == s && parts[|parts| - 1] + part == parts[|parts| - 1];
    } else {
      var front, last := part[..|part| - 1], part[|part| - 1];
      var parts := Cut(s);
      var open := parts[|parts| - 1];
      CutPart(s, front);
      assert (s + part)[..|s + part| - 1] == s + front && (s + part)[|s + part| - 1] == last;
      assert open + front + [last] == open + part;
      assert last != ':';
    }
  }

  lemma CutColon(s: string)
    ensures Cut(s + ":") == Cut(s) + [""]
  {
    assert (s + ":")[..|s|] == s;
  }

  /** Cutting undoes joining. */
  lemma {:induction false} CutJoin(fields: seq<string>)
    requires fields != [] && forall i :: 0 <= i < |fields| ==> ColonFree(fields[i])
    ensures Cut(Join(fields)) == fields
    decreases |fields|
  {
    var front, last := fields[..|fields| - 1], fields[|fields| - 1];
    assert fields == front + [last];
    if front == [] {
      CutPart("", last);
      assert "" + last == last;
    } else {
      CutJoin(front);
      CutColon(Join(front));
      CutPart(Join(front) + ":", last);
    }
  }

  predicate IsNumber(s: string) {
    s != "" && s != "-" && forall i :: 0 <= i < |s| ==> IsDigit(s[i]) || (i == 0 && s[i] == '-')
  }

  /** The integer that a decimal number denotes. */
  function ParseInt(s: string): int
    requires IsNumber(s)
  {
    var digits := if s[0] == '-' then s[1..] else s;
    var n: int := ParseNat(digits);
    if s[0] == '-' then -n else n
  }

  lemma ParseFormatInt(n: int)
    ensures IsNumber(FormatInt(n)) && ParseInt(FormatInt(n)) == n && ColonFree(FormatInt(n))
  {
    var m := if n < 0 then -n else n;
    ParseFormat(m);
    FormatIntColonFree(n);
    var digits := FormatNat(m);
    if n < 0 {
      assert FormatInt(n)[1..] == digits;
    } else {
      assert IsDigit(digits[0]);
    }
  }

  /** A reader that knows nothing of headers finds the eight fields in the serialisation, in this order. */
  lemma ReadBack(b: Header)
    requires FieldsColonFree(b)
    ensures var parts := Cut(Serialize(b));
            && |parts| == 8 && parts[0] == b.minerID && parts[1] == b.previousHash
            && IsNumber(parts[2]) && ParseInt(parts[2]) == b.creationDate
            && IsNumber(parts[3]) && ParseInt(parts[3]) == b.round
            && IsNumber(parts[4]) && ParseInt(parts[4]) == b.roundRandomSeed
            && IsNumber(parts[5]) && ParseInt(parts[5]) == b.stateChangesCount
            && parts[6] == b.merkleTreeRoot && parts[7] == b.receiptMerkleTreeRoot
  {
    hide Cut, Join, FormatInt, IsNumber, ParseInt;
    HashedFieldsColonFree(b);
    CutJoin(HashedFields(b));
    ParseFormatInt(b.creationDate);
    ParseFormatInt(b.round);
    ParseFormatInt(b.roundRandomSeed);
    ParseFormatInt(b.stateChangesCount);
  }

  /** The text that is hashed for b with this previous hash, written out. */
  function HashedText(previousHash: string, b: Header): string {
    b.minerID + ":" + previousHash + ":" + FormatInt(b.creationDate) + ":" + FormatInt(b.round) + ":" +
    FormatInt(b.roundRandomSeed) + ":" + FormatInt(b.stateChangesCount) + ":" + b.merkleTreeRoot + ":" +
    b.receiptMerkleTreeRoot
  }

  lemma SerializeIsText(b: Header)
    ensures Serialize(b) == HashedText(b.previousHash, b)
  {
    hide Join, FormatInt;
    var fields := HashedFields(b);
    assert Join(fields[..1]) == b.minerID by {
      JoinOne(b.minerID);
      assert fields[..1] == [b.minerID];
    }
    JoinStep(fields, 1);
    JoinStep(fields, 2);
    JoinStep(fields, 3);
    JoinStep(fields, 4);
    JoinStep(fields, 5);
    JoinStep(fields, 6);
    JoinStep(fields, 7);
    assert fields[..8] == fields;
  }

  lemma JoinOne(field: string)
    ensures Join([field]) == field
  {
  }

  /** b extends a block with this hash exactly when its own hash is that of the text. */
  lemma ExtendsByText(hash: string -> string, previousHash: string, b: Header)
    ensures IsBlockExtends(hash, previousHash, b) <==> b.hash == hash(HashedText(previousHash, b))
  {
    var c := b.(previousHash := previousHash);
    SerializeIsText(c);
    assert HashedText(previousHash, c) == HashedText(previousHash, b);
  }

  /** What a block names as its predecessor is not looked at ... */
  lemma OwnPreviousIgnored(hash: string -> string, previousHash: string, b: Header, other: string)
    ensures IsBlockExtends(hash, previousHash, b) <==> IsBlockExtends(hash, previousHash, b.(previousHash := other))
  {
    ExtendsByText(hash, previousHash, b);
    ExtendsByText(hash, previousHash, b.(previousHash := other));
  }

  /** ... but its hash commits to it: a block extends blocks of one hash only. */
  lemma OnePredecessor(hash: string -> string, p: string, q: string, b: Header)
    requires FieldsColonFree(b.(previousHash := p)) && CollisionFree(hash, iset{HashedText(p, b), HashedText(q, b)})
    requires IsBlockExtends(hash, p, b) && IsBlockExtends(hash, q, b)
    ensures p == q
  {
    var x, y := b.(previousHash := p), b.(previousHash := q);
    ExtendsByText(hash, p, b);
    ExtendsByText(hash, q, b);
    assert NoCollision(hash, HashedText(p, b), HashedText(q, b));
    SerializeIsText(x);
    SerializeIsText(y);
    assert HashedText(p, x) == HashedText(p, b) && HashedText(q, y) == HashedText(q, b);
    SerializeInjective(x, y);
  }

  /** An instance: the text, and the block that carries its hash. */
  method ValidateExample(hash: string -> string, b: Header) returns (ok: bool)
    requires b.minerID == "m" && b.previousHash == "p" && b.creationDate == 1 && b.round == 2 && b.roundRandomSeed == 3
    requires b.stateChangesCount == 4 && b.merkleTreeRoot == "r" && b.receiptMerkleTreeRoot == "q"
    ensures ok <==> b.hash == hash("m:p:1:2:3:4:r:q")
  {
    SerializeIsText(b);
    SmallNumbers();
    assert HashedText("p", b) == "m:p:1:2:3:4:r:q";
    ok := ValidateBlockHash(hash, b);
  }

  lemma SmallNumbers()
    ensures FormatInt(1) == "1" && FormatInt(2) == "2" && FormatInt(3) == "3" && FormatInt(4) == "4"
  {
  }

  // ----- chains of headers

  /** Each header carries its own hash, names its predecessor's hash and follows it by one round. */
  ghost predicate IsChain(hash: string -> string, chain: seq<Header>) {
    && (forall i :: 0 <= i < |chain| ==> Validates(hash, chain[i]))
    && (forall i :: 0 < i < |chain| ==>
          chain[i].previousHash == chain[i - 1].hash && chain[i].round == chain[i - 1].round + 1)
  }

  ghost function Serialized(chain: seq<Header>): iset<string> {
    iset i | 0 <= i < |chain| :: Serialize(chain[i])
  }

  /** The hash of its last header fixes a whole chain without colons in its string fields: any chain that ends in the
      same hash agrees with it, counted from the end, on every hashed field of every header that both have. */
  lemma {:induction false} ChainIsFixedByLastHash(hash: string -> string, a: seq<Header>, b: seq<Header>, back: nat)
    requires IsChain(hash, a) && IsChain(hash, b)
    requires back < |a| && back < |b|
    requires forall i :: 0 <= i < |a| ==> FieldsColonFree(a[i])
    requires CollisionFree(hash, Serialized(a) + Serialized(b))
    requires a[|a| - 1].hash == b[|b| - 1].hash
    ensures a[|a| - 1 - back].hash == b[|b| - 1 - back].hash
    ensures SameHashed(a[|a| - 1 - back], b[|b| - 1 - back])
    decreases back
  {
    if back > 0 {
      ChainIsFixedByLastHash(hash, a, b, back - 1);
    }
    var x, y := a[|a| - 1 - back], b[|b| - 1 - back];
    assert Serialize(x) in Serialized(a) && Serialize(y) in Serialized(b);
    assert NoCollision(hash, Serialize(x), Serialize(y));
    SerializeInjective(x, y);
  }
}
