/**
 * The French deck of code/cardsNum02.py: two fixed token sequences, the ranks
 * and the suits, each obtained by splitting a space-separated string, and the
 * deck built as their cartesian product with the suit as the outer loop.
 */
module Cards {
  import opened Results
  import opened PyText
  import opened Records
  import opened Sequences

  /** A playing card: a dataclass with the fields `rank` and `suit`, both strings. */
  datatype PlayingCard = PlayingCard(rank: string, suit: string)

  const RanksText: string := "2 3 4 5 6 7 8 9 10 J Q K A"
  const SuitsText: string := "♣ ♢ ♡ ♠"

  /** The ranks: the tokens of the space-separated rank string, from the two up to the ace. */
  const Ranks: seq<string> := Split(RanksText)

  /** The suits: the tokens of the space-separated string of the four suit glyphs. */
  const Suits: seq<string> := Split(SuitsText)

  /** The inner loop of the deck comprehension: one card of the given suit per rank, ranks in order. */
  function RankRow(ranks: seq<string>, suit: string): (row: seq<PlayingCard>)
    ensures |row| == |ranks|
    ensures forall j :: 0 <= j < |ranks| ==> row[j] == PlayingCard(ranks[j], suit)
  {
    seq(|ranks|, j requires 0 <= j < |ranks| => PlayingCard(ranks[j], suit))
  }

  /** The whole deck comprehension, suit in the outer loop and rank in the inner: a row of all ranks for each suit in turn. */
  function Product(ranks: seq<string>, suits: seq<string>): (deck: seq<PlayingCard>)
    ensures |deck| == |ranks| * |suits|
  {
    if suits == [] then [] else RankRow(ranks, suits[0]) + Product(ranks, suits[1..])
  }

  /** The French deck: every rank of every suit, suit varying slowest. */
  function MakeFrenchDeck(): (deck: seq<PlayingCard>)
    ensures |deck| == |Suits| * |Ranks|
  {
    Product(Ranks, Suits)
  }

  /** The text `repr` gives a card: the dataclass form, `PlayingCard(rank=<repr>, suit=<repr>)`, rank before suit. */
  function Repr(c: PlayingCard): (r: string)
    ensures r == "PlayingCard(rank=" + PyText.Repr(c.rank) + ", suit=" + PyText.Repr(c.suit) + ")"
  {
    RenderTwo("PlayingCard", Field("rank", c.rank), Field("suit", c.suit));
    Render("PlayingCard", [Field("rank", c.rank), Field("suit", c.suit)])
  }

  // ---------------------------------------------------------------------------
  // The token sequences
  // ---------------------------------------------------------------------------

  /** The ranks are the thirteen tokens of the rank string, in order. */
  lemma RanksAre()
    ensures Ranks == ["2", "3", "4", "5", "6", "7", "8", "9", "10", "J", "Q", "K", "A"]
  {
    var ws := ["2", "3", "4", "5", "6", "7", "8", "9", "10", "J", "Q", "K", "A"];
    RankTokens(ws);
    RanksTextJoin();
    SplitOfJoin(RanksText, ws, " ");
  }

  lemma RanksTextJoin()
    ensures RanksText == Join(["2", "3", "4", "5", "6", "7", "8", "9", "10", "J", "Q", "K", "A"], " ")
  {
  }

  lemma RankTokens(ws: seq<string>)
    requires ws == ["2", "3", "4", "5", "6", "7", "8", "9", "10", "J", "Q", "K", "A"]
    ensures forall i :: 0 <= i < |ws| ==> IsToken(ws[i])
  {
    GraphicToken("2"); GraphicToken("3"); GraphicToken("4"); GraphicToken("5");
    GraphicToken("6"); GraphicToken("7"); GraphicToken("8"); GraphicToken("9");
    GraphicToken("10"); GraphicToken("J"); GraphicToken("Q"); GraphicToken("K"); GraphicToken("A");
  }

  /** The suits are the four glyph tokens of the suit string, in order. */
  lemma SuitsAre()
    ensures Suits == ["♣", "♢", "♡", "♠"]
  {
    var ws := ["♣", "♢", "♡", "♠"];
    SuitTokens(ws);
    SuitsTextJoin();
    SplitOfJoin(SuitsText, ws, " ");
  }

  lemma SuitsTextJoin()
    ensures SuitsText == Join(["♣", "♢", "♡", "♠"], " ")
  {
  }

  lemma SuitTokens(ws: seq<string>)
    requires ws == ["♣", "♢", "♡", "♠"]
    ensures forall i :: 0 <= i < |ws| ==> IsToken(ws[i])
  {
    GraphicToken("♣"); GraphicToken("♢"); GraphicToken("♡"); GraphicToken("♠");
  }

  /** Non-empty text of visible ASCII characters and the card-suit glyphs is a token. */
  lemma GraphicToken(w: string)
    requires |w| > 0
    requires forall k :: 0 <= k < |w| ==> ('!' <= w[k] <= '~') || ('\U{2660}' <= w[k] <= '\U{2667}')
    ensures IsToken(w)
  {
  }

  /** There are thirteen ranks and four suits. */
  lemma TokenCounts()
    ensures |Ranks| == 13 && |Suits| == 4
  {
    RanksAre();
    SuitsAre();
  }

  /** No rank and no suit is listed twice. */
  lemma TokensDistinct()
    ensures Distinct(Ranks) && Distinct(Suits)
  {
    RanksAre();
    SuitsAre();
    LiteralsDistinct(Ranks, Suits);
  }

  /** The first and last of the ranks and of the suits. */
  lemma TokenEnds()
    ensures |Ranks| == 13 && |Suits| == 4
    ensures Ranks[0] == "2" && Ranks[12] == "A" && Suits[0] == "♣" && Suits[3] == "♠"
  {
    RanksAre();
    SuitsAre();
  }

  lemma LiteralsDistinct(ranks: seq<string>, suits: seq<string>)
    requires ranks == ["2", "3", "4", "5", "6", "7", "8", "9", "10", "J", "Q", "K", "A"]
    requires suits == ["♣", "♢", "♡", "♠"]
    ensures Distinct(ranks) && Distinct(suits)
  {
  }

  // ---------------------------------------------------------------------------
  // The cartesian product, for any rank and suit sequences
  // ---------------------------------------------------------------------------

  /** Block `k` of the product, cards `k * n` up to `(k + 1) * n`, is the row of suit `k`: the suit varies slowest. */
  lemma {:induction false} ProductBlock(ranks: seq<string>, suits: seq<string>, k: nat)
    requires k < |suits|
    ensures var n := |ranks|;
      0 <= k * n <= (k + 1) * n <= |Product(ranks, suits)| &&
      Product(ranks, suits)[k * n .. (k + 1) * n] == RankRow(ranks, suits[k])
  {
    var n := |ranks|;
    var row := RankRow(ranks, suits[0]);
    var rest := Product(ranks, suits[1..]);
    assert Product(ranks, suits) == row + rest;
    if k == 0 {
      assert (row + rest)[0 .. n] == row;
    } else {
      ProductBlock(ranks, suits[1..], k - 1);
      assert (k - 1) * n == k * n - n && k * n == (k - 1) * n + n;
      assert (k + 1) * n == k * n + n;
      assert (row + rest)[k * n .. (k + 1) * n] == rest[(k - 1) * n .. k * n];
      assert suits[1..][k - 1] == suits[k];
    }
  }

  /** The card at row `k`, column `j` has rank `j` and suit `k`. */
  lemma ProductCell(ranks: seq<string>, suits: seq<string>, k: nat, j: nat)
    requires k < |suits| && j < |ranks|
    ensures k * |ranks| + j < |Product(ranks, suits)|
    ensures Product(ranks, suits)[k * |ranks| + j] == PlayingCard(ranks[j], suits[k])
  {
    var n := |ranks|;
    ProductBlock(ranks, suits, k);
    assert Product(ranks, suits)[k * n .. (k + 1) * n][j] == Product(ranks, suits)[k * n + j];
  }

  /** Card `i` of the product is `PlayingCard(ranks[i % n], suits[i / n])` for `n` ranks. */
  lemma ProductAt(ranks: seq<string>, suits: seq<string>, i: nat)
    requires i < |Product(ranks, suits)|
    ensures |ranks| > 0 && i / |ranks| < |suits|
    ensures Product(ranks, suits)[i] == PlayingCard(ranks[i % |ranks|], suits[i / |ranks|])
  {
    var n, m := |ranks|, |suits|;
    DivideIndex(i, n, m);
    var k, j := i / n, i % n;
    ProductCell(ranks, suits, k, j);
  }

  /** An index below `n * m` has a row below `m` and a column below `n`. */
  lemma DivideIndex(i: nat, n: nat, m: nat)
    requires i < n * m
    ensures n > 0 && 0 <= i / n < m && 0 <= i % n < n && i == (i / n) * n + i % n
  {
    assert n > 0;
    if i / n >= m {
      MulMonotone(m, i / n, n);
      assert false;
    }
  }

  lemma MulMonotone(a: nat, b: nat, n: nat)
    requires a <= b
    ensures a * n <= b * n
  {
  }

  /** A card is in the product exactly when its rank is one of the ranks and its suit one of the suits. */
  lemma {:induction false} ProductMembers(ranks: seq<string>, suits: seq<string>, c: PlayingCard)
    ensures c in Product(ranks, suits) <==> c.rank in ranks && c.suit in suits
  {
    if suits != [] {
      var row := RankRow(ranks, suits[0]);
      assert Product(ranks, suits) == row + Product(ranks, suits[1..]);
      ProductMembers(ranks, suits[1..], c);
      assert c in row <==> c.rank in ranks && c.suit == suits[0] by {
        if c.rank in ranks && c.suit == suits[0] {
          var j :| 0 <= j < |ranks| && ranks[j] == c.rank;
          assert row[j] == c;
        }
      }
      assert suits == [suits[0]] + suits[1..];
    }
  }

  lemma RankRowDistinct(ranks: seq<string>, suit: string)
    requires Distinct(ranks)
    ensures Distinct(RankRow(ranks, suit))
  {
  }

  /** Without repeated ranks or suits, no card occurs twice in the product. */
  lemma {:induction false} ProductDistinct(ranks: seq<string>, suits: seq<string>)
    requires Distinct(ranks) && Distinct(suits)
    ensures Distinct(Product(ranks, suits))
  {
    if suits != [] {
      var row := RankRow(ranks, suits[0]);
      var rest := Product(ranks, suits[1..]);
      assert Distinct(suits[1..]) by {
        forall i, j | 0 <= i < j < |suits[1..]| ensures suits[1..][i] != suits[1..][j] {
          assert suits[1..][i] == suits[i + 1] && suits[1..][j] == suits[j + 1];
        }
      }
      ProductDistinct(ranks, suits[1..]);
      RankRowDistinct(ranks, suits[0]);
      forall c | c in row ensures c !in rest {
        ProductMembers(ranks, suits[1..], c);
        assert suits[0] !in suits[1..] by {
          forall t | 0 <= t < |suits[1..]| ensures suits[1..][t] != suits[0] {
            assert suits[1..][t] == suits[t + 1];
          }
        }
      }
      DistinctConcat(row, rest);
    }
  }

  // ---------------------------------------------------------------------------
  // The French deck
  // ---------------------------------------------------------------------------

  /** The deck has 4 * 13 = 52 cards. */
  lemma DeckSize()
    ensures |MakeFrenchDeck()| == |Suits| * |Ranks| == 52
  {
    TokenCounts();
  }

  /** Card `i` has rank `i % 13` and suit `i / 13`: the suit varies slowest. */
  lemma DeckAt(i: nat)
    requires i < |MakeFrenchDeck()|
    ensures |Ranks| == 13 && |Suits| == 4
    ensures MakeFrenchDeck()[i] == PlayingCard(Ranks[i % 13], Suits[i / 13])
  {
    TokenCounts();
    ProductAtThirteen(Ranks, Suits, i);
  }

  lemma ProductAtThirteen(ranks: seq<string>, suits: seq<string>, i: nat)
    requires |ranks| == 13 && i < |Product(ranks, suits)|
    ensures i / 13 < |suits| && Product(ranks, suits)[i] == PlayingCard(ranks[i % 13], suits[i / 13])
  {
    ProductAt(ranks, suits, i);
  }

  /** The deck starts with the two of clubs and ends with the ace of spades. */
  lemma DeckEnds()
    ensures |MakeFrenchDeck()| == 52
    ensures MakeFrenchDeck()[0] == PlayingCard("2", "♣")
    ensures MakeFrenchDeck()[51] == PlayingCard("A", "♠")
  {
    DeckSize();
    TokenEnds();
    DeckAt(0);
    DeckAt(51);
  }

  /** Every card has one of the ranks and one of the suits, and every such pair is a card. */
  lemma DeckMembers(c: PlayingCard)
    ensures c in MakeFrenchDeck() <==> c.rank in Ranks && c.suit in Suits
  {
    ProductMembers(Ranks, Suits, c);
  }

  /** Every rank-suit pair occurs in the deck exactly once. */
  lemma DeckExactlyOnce(r: string, s: string)
    requires r in Ranks && s in Suits
    ensures multiset(MakeFrenchDeck())[PlayingCard(r, s)] == 1
  {
    TokensDistinct();
    ProductDistinct(Ranks, Suits);
    ProductMembers(Ranks, Suits, PlayingCard(r, s));
    DistinctCount(MakeFrenchDeck(), PlayingCard(r, s));
  }

  /** No card occurs twice in the deck. */
  lemma DeckDistinct()
    ensures Distinct(MakeFrenchDeck())
  {
    TokensDistinct();
    ProductDistinct(Ranks, Suits);
  }

  // ---------------------------------------------------------------------------
  // The printed form of a card
  // ---------------------------------------------------------------------------

  /** For tokens without quotes, backslashes or control characters, a card prints as `PlayingCard(rank='r', suit='s')`. */
  lemma ReprOfPlainCard(c: PlayingCard)
    requires IsPlain(c.rank) && IsPlain(c.suit)
    ensures Repr(c) == "PlayingCard(rank='" + c.rank + "', suit='" + c.suit + "')"
  {
    var pre, mid, post := "PlayingCard(rank=", ", suit=", ")";
    assert Repr(c) == pre + PyText.Repr(c.rank) + mid + PyText.Repr(c.suit) + post;
    PyText.ReprOfPlainPair(pre, c.rank, mid, c.suit, post);
    assert pre + "'" == "PlayingCard(rank='" && "'" + mid + "'" == "', suit='" && "'" + post == "')";
  }

  /** Two cards print the same exactly when they are the same card. */
  lemma ReprInjective(c: PlayingCard, d: PlayingCard)
    ensures Repr(c) == Repr(d) <==> c == d
  {
    var fs := [Field("rank", c.rank), Field("suit", c.suit)];
    var gs := [Field("rank", d.rank), Field("suit", d.suit)];
    assert Names(fs) == Names(gs);
    RenderInjective("PlayingCard", fs, gs);
    if fs == gs {
      assert fs[0] == gs[0] && fs[1] == gs[1];
    }
  }

  /** The first and last cards of the deck print as the first and last entries of the recorded output. */
  lemma DeckEndsPrinted()
    ensures |MakeFrenchDeck()| == 52
    ensures Repr(MakeFrenchDeck()[0]) == "PlayingCard(rank='2', suit='♣')"
    ensures Repr(MakeFrenchDeck()[51]) == "PlayingCard(rank='A', suit='♠')"
  {
    DeckEnds();
    TwoOfClubsPrinted(MakeFrenchDeck()[0]);
    AceOfSpadesPrinted(MakeFrenchDeck()[51]);
  }

  lemma TwoOfClubsPrinted(c: PlayingCard)
    requires c == PlayingCard("2", "♣")
    ensures Repr(c) == "PlayingCard(rank='2', suit='♣')"
  {
    var rank, suit := "2", "♣";
    PrintedAs(c, rank, suit);
  }

  lemma AceOfSpadesPrinted(c: PlayingCard)
    requires c == PlayingCard("A", "♠")
    ensures Repr(c) == "PlayingCard(rank='A', suit='♠')"
  {
    var rank, suit := "A", "♠";
    PrintedAs(c, rank, suit);
  }

  /** A card holding a one-character rank and a suit glyph prints them between single quotes. */
  lemma PrintedAs(c: PlayingCard, rank: string, suit: string)
    requires c == PlayingCard(rank, suit)
    requires |rank| == 1 && '0' <= rank[0] <= 'Z'
    requires |suit| == 1 && '\U{2660}' <= suit[0] <= '\U{2667}'
    ensures Repr(c) == "PlayingCard(rank='" + rank + "', suit='" + suit + "')"
  {
    assert IsPlain(rank) && IsPlain(suit);
    ReprOfPlainCard(c);
  }
}
