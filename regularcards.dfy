/**
 * The hand-written card class of code/main.py: a constructor that stores
 * `rank` and `suit`, a `__repr__` that writes `RegularCard(rank=<repr>, suit=<repr>)`,
 * and an `__eq__` that answers NotImplemented for an object of another class
 * and otherwise compares the `(rank, suit)` pairs.
 */
module RegularCards {
  import opened Results
  import opened PyText
  import Records

  /** A RegularCard: its two attributes, set once by `__init__` and never reassigned. */
  datatype RegularCard = RegularCard(rank: string, suit: string)

  /** The right-hand operand `__eq__` receives: a RegularCard, or an instance of any other class (a subclass included). */
  datatype PyObject = CardObject(card: RegularCard) | OtherObject(className: string)

  /** What `__eq__` returns: Python's True, False, or the NotImplemented singleton. */
  datatype EqResult = True | False | NotImplemented

  const ClassName: string := "RegularCard"

  /**
   * `repr(card)`: the class name, then `(rank=`, the repr of the rank, `, suit=`,
   * the repr of the suit and `)`. The hand-written form is the record form a
   * dataclass with fields `rank` and `suit` would print.
   */
  function Repr(c: RegularCard): (r: string)
    ensures r == Records.Render(ClassName, [Records.Field("rank", c.rank), Records.Field("suit", c.suit)])
  {
    Records.RenderTwo(ClassName, Records.Field("rank", c.rank), Records.Field("suit", c.suit));
    ClassName + "(rank=" + PyText.Repr(c.rank) + ", suit=" + PyText.Repr(c.suit) + ")"
  }

  /** `card.__eq__(other)` */
  function Eq(self: RegularCard, other: PyObject): (r: EqResult)
    ensures r == NotImplemented <==> !other.CardObject?
    ensures other.CardObject? ==> (r == True <==> self == other.card)
  {
    if !other.CardObject? then NotImplemented
    else if (self.rank, self.suit) == (other.card.rank, other.card.suit) then True
    else False
  }

  // ---------------------------------------------------------------------------
  // Equality
  // ---------------------------------------------------------------------------

  /** Comparing with an instance of another class is left to the other operand: never True, never False. */
  lemma EqOtherClass(c: RegularCard, name: string)
    ensures Eq(c, OtherObject(name)) == NotImplemented
    ensures Eq(c, OtherObject(name)) != True && Eq(c, OtherObject(name)) != False
  {
  }

  /** Two RegularCards are equal exactly when both their ranks and their suits are equal. */
  lemma EqFields(a: RegularCard, b: RegularCard)
    ensures Eq(a, CardObject(b)) == (if a.rank == b.rank && a.suit == b.suit then True else False)
  {
  }

  /** Equality between RegularCards is reflexive, symmetric and transitive. */
  lemma EqEquivalence(a: RegularCard, b: RegularCard, c: RegularCard)
    ensures Eq(a, CardObject(a)) == True
    ensures Eq(a, CardObject(b)) == Eq(b, CardObject(a))
    ensures Eq(a, CardObject(b)) == True && Eq(b, CardObject(c)) == True ==> Eq(a, CardObject(c)) == True
  {
  }

  // ---------------------------------------------------------------------------
  // Representation
  // ---------------------------------------------------------------------------

  /** For plain text attributes the repr is `RegularCard(rank='r', suit='s')`. */
  lemma ReprOfPlain(c: RegularCard)
    requires IsPlain(c.rank) && IsPlain(c.suit)
    ensures Repr(c) == "RegularCard(rank='" + c.rank + "', suit='" + c.suit + "')"
  {
    var pre, mid, post := "RegularCard(rank=", ", suit=", ")";
    assert ClassName + "(rank=" == pre;
    assert Repr(c) == pre + PyText.Repr(c.rank) + mid + PyText.Repr(c.suit) + post;
    PyText.ReprOfPlainPair(pre, c.rank, mid, c.suit, post);
    assert pre + "'" == "RegularCard(rank='" && "'" + mid + "'" == "', suit='" && "'" + post == "')";
  }

  /** The repr reads back as the two values the card was constructed with, unchanged. */
  lemma ReprRoundTrip(rank: string, suit: string)
    ensures Records.Parse(ClassName, ["rank", "suit"], Repr(RegularCard(rank, suit))) == Some([rank, suit])
  {
    var fs := [Records.Field("rank", rank), Records.Field("suit", suit)];
    Records.ParseRender(ClassName, fs);
    assert Records.Names(fs) == ["rank", "suit"];
    assert Records.Values(fs) == [rank, suit];
  }

  /** Two cards have the same repr exactly when `__eq__` calls them equal. */
  lemma ReprAgreesWithEq(a: RegularCard, b: RegularCard)
    ensures Repr(a) == Repr(b) <==> Eq(a, CardObject(b)) == True
  {
    var fs := [Records.Field("rank", a.rank), Records.Field("suit", a.suit)];
    var gs := [Records.Field("rank", b.rank), Records.Field("suit", b.suit)];
    assert Records.Names(fs) == Records.Names(gs);
    Records.RenderInjective(ClassName, fs, gs);
    if fs == gs {
      assert fs[0] == gs[0] && fs[1] == gs[1];
    }
  }
}
