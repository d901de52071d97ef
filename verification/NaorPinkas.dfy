/** The 1-out-of-2 base oblivious transfer of internal/ot/naor_pinkas.go, over any abelian group
    and with the cipher of internal/crypto/cipher.go. */
module NaorPinkas {
  import opened Words
  import opened BitOps

  type Bytes = seq<byte>

  // ----- the group

  datatype Group<!P> = Group(zero: P, base: P, add: (P, P) -> P, neg: P -> P, mult: (nat, P) -> P) {
    function Sub(p: P, q: P): P {
      add(p, neg(q))
    }
  }

  /** An abelian group on which scalars act by commuting homomorphisms. */
  ghost predicate AbelianGroup<P(!new)>(g: Group<P>) {
    && (forall p, q :: g.add(p, q) == g.add(q, p))
    && (forall p, q, r :: g.add(g.add(p, q), r) == g.add(p, g.add(q, r)))
    && (forall p :: g.add(p, g.zero) == p)
    && (forall p :: g.add(p, g.neg(p)) == g.zero)
    && (forall s, p, q :: g.mult(s, g.add(p, q)) == g.add(g.mult(s, p), g.mult(s, q)))
    && (forall s, t, p :: g.mult(s, g.mult(t, p)) == g.mult(t, g.mult(s, p)))
  }

  lemma Assoc<P(!new)>(g: Group<P>, p: P, q: P, r: P)
    requires AbelianGroup(g)
    ensures g.add(g.add(p, q), r) == g.add(p, g.add(q, r))
  {
  }

  lemma Comm<P(!new)>(g: Group<P>, p: P, q: P)
    requires AbelianGroup(g)
    ensures g.add(p, q) == g.add(q, p)
  {
  }

  lemma Units<P(!new)>(g: Group<P>, p: P)
    requires AbelianGroup(g)
    ensures g.add(p, g.zero) == p == g.add(g.zero, p)
    ensures g.add(p, g.neg(p)) == g.zero == g.add(g.neg(p), p)
  {
  }

  lemma Scalars<P(!new)>(g: Group<P>, s: nat, t: nat, p: P, q: P)
    requires AbelianGroup(g)
    ensures g.mult(s, g.add(p, q)) == g.add(g.mult(s, p), g.mult(s, q))
    ensures g.mult(s, g.mult(t, p)) == g.mult(t, g.mult(s, p))
  {
  }

  lemma CancelRight<P(!new)>(g: Group<P>, p: P, q: P, r: P)
    requires AbelianGroup(g) && g.add(p, r) == g.add(q, r)
    ensures p == q
  {
    hide AbelianGroup;
    Assoc(g, p, r, g.neg(r));
    Assoc(g, q, r, g.neg(r));
    Units(g, r);
    Units(g, p);
    Units(g, q);
  }

  /** (p - q) + q == p */
  lemma SubAdd<P(!new)>(g: Group<P>, p: P, q: P)
    requires AbelianGroup(g)
    ensures g.add(g.Sub(p, q), q) == p
  {
    hide AbelianGroup;
    Assoc(g, p, g.neg(q), q);
    Units(g, q);
    Units(g, p);
  }

  /** p - (p - q) == q */
  lemma SubSub<P(!new)>(g: Group<P>, p: P, q: P)
    requires AbelianGroup(g)
    ensures g.Sub(p, g.Sub(p, q)) == q
  {
    hide AbelianGroup;
    var d := g.Sub(p, q);
    SubAdd(g, p, d);
    SubAdd(g, p, q);
    Comm(g, d, q);
    CancelRight(g, g.Sub(p, d), q, d);
  }

  lemma MultSub<P(!new)>(g: Group<P>, s: nat, p: P, q: P)
    requires AbelianGroup(g)
    ensures g.mult(s, g.Sub(p, q)) == g.Sub(g.mult(s, p), g.mult(s, q))
  {
    hide AbelianGroup;
    var d := g.Sub(p, q);
    SubAdd(g, p, q);
    Scalars(g, s, 0, d, q);
    SubAdd(g, g.mult(s, p), g.mult(s, q));
    CancelRight(g, g.mult(s, d), g.Sub(g.mult(s, p), g.mult(s, q)), g.mult(s, q));
  }

  // ----- the cipher

  /** derive is DeriveKeyFromECPoint; hash(key, ind, n) are n bytes of the hash stream. */
  datatype Suite<!P> = Suite(g: Group<P>, derive: P -> Bytes, hash: (Bytes, bool, nat) -> Bytes)

  ghost predicate SuiteOk<P(!new)>(c: Suite<P>) {
    AbelianGroup(c.g) && forall key, ind, n :: |c.hash(key, ind, n)| == n
  }

  /** XorCipherWithBlake3 */
  function Cipher<P(!new)>(c: Suite<P>, key: Bytes, ind: bool, src: Bytes): (r: Bytes)
    requires |c.hash(key, ind, |src|)| == |src|
    ensures |r| == |src|
  {
    OnRows(Xor, c.hash(key, ind, |src|), src, src)
  }

  /** A bit of a ciphertext: the hash stream and the message. */
  lemma CipherBit<P(!new)>(c: Suite<P>, key: Bytes, ind: bool, src: Bytes, j: nat)
    requires |c.hash(key, ind, |src|)| == |src| && j < 8 * |src|
    ensures IsBitSet(Cipher(c, key, ind, src), j) == (IsBitSet(c.hash(key, ind, |src|), j) != IsBitSet(src, j))
  {
    hide ByteBit, OnBytes;
    OnBytesBit(Xor, c.hash(key, ind, |src|)[j / 8], src[j / 8], src[j / 8], j % 8);
  }

  lemma XorTwice(x: byte, y: byte)
    ensures XorB(x, XorB(x, y)) == y
  {
  }

  /** Encryption is an exclusive-or with the hash stream, and decryption with the same key and index
      undoes it. */
  lemma CipherTwice<P(!new)>(c: Suite<P>, key: Bytes, ind: bool, src: Bytes)
    requires SuiteOk(c)
    ensures Cipher(c, key, ind, Cipher(c, key, ind, src)) == src
    ensures XorOf(Cipher(c, key, ind, src), c.hash(key, ind, |src|), src)
  {
    CipherIsXor(c, key, ind, src);
    var h := c.hash(key, ind, |src|);
    forall k: nat | k < |src|
      ensures Cipher(c, key, ind, Cipher(c, key, ind, src))[k] == src[k]
    {
      hide XorB;
      XorTwice(h[k], src[k]);
    }
  }

  // ----- the two parties

  type Message = (Bytes, Bytes)

  /** Every bit of r is that of a xor that of b. */
  ghost predicate XorOf(r: Bytes, a: Bytes, b: Bytes) {
    |r| == |a| == |b| && forall j: nat :: j < 8 * |r| ==> IsBitSet(r, j) == (IsBitSet(a, j) != IsBitSet(b, j))
  }

  lemma CipherIsXor<P(!new)>(c: Suite<P>, key: Bytes, ind: bool, src: Bytes)
    requires SuiteOk(c)
    ensures XorOf(Cipher(c, key, ind, src), c.hash(key, ind, |src|), src)
  {
    hide Cipher, IsBitSet, AbelianGroup;
    assert |Cipher(c, key, ind, src)| == |src|;
    forall j: nat | j < 8 * |src|
      ensures IsBitSet(Cipher(c, key, ind, src), j) == (IsBitSet(c.hash(key, ind, |src|), j) != IsBitSet(src, j))
    {
      CipherBit(c, key, ind, src, j);
    }
  }

  function Chosen(m: Message, choice: bool): Bytes {
    if choice then m.1 else m.0
  }

  /** The key the sender derives for one branch from the receiver's point K0: rK0 and rA - rK0. */
  function SenderPoint<P(!new)>(c: Suite<P>, secretR: nat, pointA: P, k0: P, choice: bool): P {
    var p0 := c.g.mult(secretR, k0);
    if choice then c.g.Sub(c.g.mult(secretR, pointA), p0) else p0
  }

  /** The pair of ciphertexts for one pair of messages. */
  function Encrypted<P(!new)>(c: Suite<P>, secretR: nat, pointA: P, k0: P, m: Message): Message
    requires SuiteOk(c)
  {
    (Cipher(c, c.derive(SenderPoint(c, secretR, pointA, k0, false)), false, m.0),
     Cipher(c, c.derive(SenderPoint(c, secretR, pointA, k0, true)), true, m.1))
  }

  /** What the receiver makes of a pair of ciphertexts. */
  function Decrypted<P(!new)>(c: Suite<P>, secretB: nat, pointR: P, choice: bool, m: Message): Bytes
    requires SuiteOk(c)
  {
    Cipher(c, c.derive(c.g.mult(secretB, pointR)), choice, Chosen(m, choice))
  }

  /** The point the receiver sends for its choice: B, or A - B. */
  function ReceiverPoint<P(!new)>(c: Suite<P>, pointA: P, secretB: nat, choice: bool): P {
    var b := c.g.mult(secretB, c.g.base);
    if choice then c.g.Sub(pointA, b) else b
  }

  /** Both parties derive the same key for the chosen branch. */
  lemma SharedKey<P(!new)>(c: Suite<P>, secretR: nat, pointA: P, secretB: nat, choice: bool)
    requires SuiteOk(c)
    ensures SenderPoint(c, secretR, pointA, ReceiverPoint(c, pointA, secretB, choice), choice)
            == c.g.mult(secretB, c.g.mult(secretR, c.g.base))
  {
    hide AbelianGroup;
    var b := c.g.mult(secretB, c.g.base);
    Scalars(c.g, secretR, secretB, c.g.base, c.g.base);
    if choice {
      MultSub(c.g, secretR, pointA, b);
      SubSub(c.g, c.g.mult(secretR, pointA), c.g.mult(secretR, b));
    }
  }

  /** Send: one pair of ciphertexts for each point read. */
  method Send<P(!new)>(c: Suite<P>, secretA: nat, secretR: nat, messages: seq<Message>, points: seq<P>)
    returns (ciphertexts: seq<Message>)
    requires SuiteOk(c) && |points| == |messages|
    ensures |ciphertexts| == |messages|
    ensures forall i: nat :: i < |messages| ==>
              ciphertexts[i] == Encrypted(c, secretR, c.g.mult(secretA, c.g.base), points[i], messages[i])
    ensures forall i: nat :: i < |messages| ==>
              var k0 := c.g.mult(secretR, points[i]);
              var k1 := c.g.Sub(c.g.mult(secretR, c.g.mult(secretA, c.g.base)), k0);
              XorOf(ciphertexts[i].0, c.hash(c.derive(k0), false, |messages[i].0|), messages[i].0) &&
              XorOf(ciphertexts[i].1, c.hash(c.derive(k1), true, |messages[i].1|), messages[i].1)
  {
    hide AbelianGroup, Cipher, XorOf;
    var pointA := c.g.mult(secretA, c.g.base);
    var rA := c.g.mult(secretR, pointA);
    ciphertexts := [];
    for i := 0 to |messages|
      invariant |ciphertexts| == i
      invariant forall k: nat :: k < i ==> ciphertexts[k] == Encrypted(c, secretR, pointA, points[k], messages[k])
    {
      var key0 := c.g.mult(secretR, points[i]);
      var key1 := c.g.Sub(rA, key0);
      ciphertexts := ciphertexts + [(Cipher(c, c.derive(key0), false, messages[i].0),
                                     Cipher(c, c.derive(key1), true, messages[i].1))];
    }
    forall i: nat | i < |messages|
      ensures var k0 := c.g.mult(secretR, points[i]);
        var k1 := c.g.Sub(rA, k0);
        XorOf(ciphertexts[i].0, c.hash(c.derive(k0), false, |messages[i].0|), messages[i].0) &&
        XorOf(ciphertexts[i].1, c.hash(c.derive(k1), true, |messages[i].1|), messages[i].1)
    {
      var k0 := c.g.mult(secretR, points[i]);
      CipherIsXor(c, c.derive(k0), false, messages[i].0);
      CipherIsXor(c, c.derive(c.g.Sub(rA, k0)), true, messages[i].1);
    }
  }

  /** The first half of a turn of Receive: the point for each choice. */
  method ReceiverPoints<P(!new)>(c: Suite<P>, pointA: P, choices: Bytes, secrets: seq<nat>) returns (points: seq<P>)
    requires |secrets| == 8 * |choices|
    ensures |points| == |secrets|
    ensures forall i: nat :: i < |points| ==> points[i] == ReceiverPoint(c, pointA, secrets[i], IsBitSet(choices, i))
    ensures forall i: nat :: i < |points| ==>
              points[i] == if IsBitSet(choices, i) then c.g.Sub(pointA, c.g.mult(secrets[i], c.g.base))
                           else c.g.mult(secrets[i], c.g.base)
  {
    hide IsBitSet;
    points := [];
    for i := 0 to |secrets|
      invariant |points| == i
      invariant forall k: nat :: k < i ==> points[k] == ReceiverPoint(c, pointA, secrets[k], IsBitSet(choices, k))
    {
      var pointB := c.g.mult(secrets[i], c.g.base);
      if !IsBitSet(choices, i) {
        points := points + [pointB];
      } else {
        points := points + [c.g.Sub(pointA, pointB)];
      }
    }
  }

  /** The second half: decrypt the chosen ciphertext with the key bR. */
  method Decrypt<P(!new)>(c: Suite<P>, pointR: P, choices: Bytes, secrets: seq<nat>, ciphertexts: seq<Message>)
    returns (messages: seq<Bytes>)
    requires SuiteOk(c) && |ciphertexts| == |secrets| == 8 * |choices|
    ensures |messages| == |secrets|
    ensures forall i: nat :: i < |messages| ==>
              messages[i] == Decrypted(c, secrets[i], pointR, IsBitSet(choices, i), ciphertexts[i])
    ensures forall i: nat :: i < |messages| ==>
              var choice := IsBitSet(choices, i);
              var chosen := if choice then ciphertexts[i].1 else ciphertexts[i].0;
              XorOf(messages[i], c.hash(c.derive(c.g.mult(secrets[i], pointR)), choice, |chosen|), chosen)
  {
    hide IsBitSet, Cipher, AbelianGroup, XorOf;
    messages := [];
    for i := 0 to |secrets|
      invariant |messages| == i
      invariant forall k: nat :: k < i ==>
                  messages[k] == Decrypted(c, secrets[k], pointR, IsBitSet(choices, k), ciphertexts[k])
    {
      var pointK := c.g.mult(secrets[i], pointR);
      var choice := IsBitSet(choices, i);
      messages := messages + [Cipher(c, c.derive(pointK), choice, Chosen(ciphertexts[i], choice))];
    }
    forall i: nat | i < |messages|
      ensures var choice := IsBitSet(choices, i);
        var chosen := if choice then ciphertexts[i].1 else ciphertexts[i].0;
        XorOf(messages[i], c.hash(c.derive(c.g.mult(secrets[i], pointR)), choice, |chosen|), chosen)
    {
      var choice := IsBitSet(choices, i);
      CipherIsXor(c, c.derive(c.g.mult(secrets[i], pointR)), choice, Chosen(ciphertexts[i], choice));
    }
  }

  datatype Result = Received(messages: seq<Bytes>) | BaseCountMismatch

  /** An honest run for `count` message pairs: the receiver, with room for `slots` messages, learns
      the chosen message of every pair. `points` and `ciphertexts` are what is sent, in order; no
      point depends on a ciphertext. */
  method Run<P(!new)>(c: Suite<P>, count: nat, slots: nat, secretA: nat, secretR: nat, messages: seq<Message>,
                      choices: Bytes, secrets: seq<nat>)
    returns (r: Result, points: seq<P>, ciphertexts: seq<Message>)
    requires SuiteOk(c) && |secrets| == 8 * |choices|
    ensures r.Received? <==> count == |messages| == slots == 8 * |choices|
    ensures r.Received? ==> |r.messages| == |messages|
    ensures r.Received? ==>
              forall i: nat :: i < |messages| ==>
                r.messages[i] == if IsBitSet(choices, i) then messages[i].1 else messages[i].0
    ensures r.Received? ==> |points| == |ciphertexts| == |messages|
    ensures r.Received? ==> forall i: nat :: i < |messages| ==>
              && points[i] == (if IsBitSet(choices, i)
                               then c.g.Sub(c.g.mult(secretA, c.g.base), c.g.mult(secrets[i], c.g.base))
                               else c.g.mult(secrets[i], c.g.base))
              && var k0 := c.g.mult(secretR, points[i]);
                 var k1 := c.g.Sub(c.g.mult(secretR, c.g.mult(secretA, c.g.base)), k0);
                 && XorOf(ciphertexts[i].0, c.hash(c.derive(k0), false, |messages[i].0|), messages[i].0)
                 && XorOf(ciphertexts[i].1, c.hash(c.derive(k1), true, |messages[i].1|), messages[i].1)
  {
    if count != |messages| || 8 * |choices| != slots || 8 * |choices| != count {
      return BaseCountMismatch, [], [];
    }
    hide AbelianGroup, Cipher, IsBitSet, SenderPoint, ReceiverPoint, XorOf;
    var pointA, pointR := c.g.mult(secretA, c.g.base), c.g.mult(secretR, c.g.base);
    points := ReceiverPoints(c, pointA, choices, secrets);
    ciphertexts := Send(c, secretA, secretR, messages, points);
    var received := Decrypt(c, pointR, choices, secrets, ciphertexts);
    forall i: nat | i < |messages|
      ensures received[i] == Chosen(messages[i], IsBitSet(choices, i))
    {
      var choice := IsBitSet(choices, i);
      SharedKey(c, secretR, pointA, secrets[i], choice);
      CipherTwice(c, c.derive(c.g.mult(secrets[i], pointR)), choice, Chosen(messages[i], choice));
    }
    r := Received(received);
  }
}
