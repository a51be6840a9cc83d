# Playing cards and record construction, in Dafny

This project models the two hand-written pieces of a small Python tutorial about record types. It proves what they do.

**The French deck** (`code/cardsNum02.py`).
- `RANKS` and `SUITS` are the whitespace-separated tokens of two fixed strings, as `str.split()` produces them.
- `PlayingCard` is a dataclass with the string fields `rank` and `suit`.
- `make_french_deck()` builds one card for every suit and rank. Suit is the outer loop and rank the inner one, so the 13 cards of each suit are consecutive.
- The model proves:
  - the rank and suit lists, in order;
  - the deck's size, and the card at every index (suit varies slowest);
  - membership;
  - that every rank-suit pair occurs exactly once;
  - the dataclass text form `PlayingCard(rank='2', suit='♣')` of the first and last cards.

**RegularCard** (`code/main.py`).
- This is a hand-written class. It has a constructor that stores `rank` and `suit`.
- `__repr__` writes `RegularCard(rank=<repr>, suit=<repr>)`.
- `__eq__` answers `NotImplemented` for an object of another class, and otherwise compares the `(rank, suit)` pairs.
- The model proves the three-valued equality's properties. It proves that the repr reads back as the constructor's arguments, and that two cards print alike exactly when `__eq__` calls them equal.

**Position** (`code/main.py`).
- `Position` is built at run time by `make_dataclass` from the class name and the three field names `name`, `lat` and `lon`. Its generated `__init__` takes `self` and then those three parameters, none with a default.
- The model describes how a call binds positional and keyword arguments, in the order CPython checks them, and the TypeError a failed call raises.
- It proves a reference characterisation of the calls that succeed.
- It proves the three calls the source shows, and that fewer than three arguments never succeed.

Modules:
- `Results`: Option and Result.
- `Sequences`: the `Distinct` predicate.
- `PyText`: Python's `str.split()`, `sep.join`, and `repr` of a `str`, with a reader for the literals `repr` writes.
- `Records`: the `Cls(f1=<repr>, f2=<repr>)` text form dataclasses give their instances, and its reader.
- `Cards`: `code/cardsNum02.py`.
- `RegularCards` and `Positions`: `code/main.py`.

All of the source is expressions and declarations: it has no loops that update variables and no field that changes after construction. So the model is datatypes, functions and lemmas throughout.

Printing is I/O and is not modelled. Argument values of Position are a type parameter, so floats do not enter.

Two choices follow the code rather than a generic record facility:
- `RegularCard.__eq__` returns `NotImplemented`, not `False`, for an object of another class. That leaves the answer to Python's operator machinery, and the model keeps `NotImplemented`.
- The `Position` in force has no field defaults, so no defaults are modelled.

## Model

| member | source | states |
|---|---|---|
| PyText.Split | code/cardsNum02.py:16-17 | `str.split()` without arguments: never more tokens than characters; what the tokens are is stated by SplitTokens, SplitKeepsText and SplitJoin |
| PyText.SplitTokens | code/cardsNum02.py:16-17 | every token `str.split()` yields is non-empty and contains no whitespace |
| PyText.SplitKeepsText | code/cardsNum02.py:16-17 | the tokens, concatenated, are exactly the non-whitespace characters of the input, in order |
| PyText.SplitJoin | code/cardsNum02.py:16-17 | splitting tokens joined by any non-empty whitespace separator gives back the same tokens in the same order |
| PyText.SplitOfJoin | code/cardsNum02.py:16-17 | a text written as whitespace-joined tokens splits into exactly those tokens |
| PyText.DropSpace | code/cardsNum02.py:16-17 | the result is a suffix of the input, all removed characters are whitespace, and it does not start with whitespace |
| PyText.WordIsToken | code/cardsNum02.py:16-17 | a text that starts with a non-space character starts with a token |
| PyText.WordLength | code/cardsNum02.py:16-17 | the longest whitespace-free prefix: all its characters are non-space, and it ends the text or is followed by whitespace |
| Cards.RanksAre | code/cardsNum02.py:16 | `RANKS` is the 13 tokens 2 … 10, J, Q, K, A, in that order |
| Cards.SuitsAre | code/cardsNum02.py:17 | `SUITS` is the 4 glyphs ♣ ♢ ♡ ♠, in that order |
| Cards.TokenCounts | code/cardsNum02.py:16-17 | there are 13 ranks and 4 suits |
| Cards.TokensDistinct | code/cardsNum02.py:16-17 | no rank and no suit is repeated |
| Cards.TokenEnds | code/cardsNum02.py:16-17 | the first and last rank are 2 and A; the first and last suit are ♣ and ♠ |
| Cards.GraphicToken | code/cardsNum02.py:16-17 | non-empty text of visible ASCII characters and card-suit glyphs has no whitespace, so it is a token |
| Cards.Product | code/cardsNum02.py:21 | the nested comprehension has \|ranks\| × \|suits\| cards; which cards, and where, is stated by ProductBlock, ProductAt and ProductMembers |
| Cards.ProductBlock | code/cardsNum02.py:21 | the k-th block of `n` consecutive cards is the row of the k-th suit |
| Cards.ProductCell | code/cardsNum02.py:21 | the card at position `k*n + j` has rank `j` and suit `k` |
| Cards.ProductAt | code/cardsNum02.py:21 | card `i` is `PlayingCard(ranks[i % n], suits[i / n])`, for `n` ranks |
| Cards.ProductMembers | code/cardsNum02.py:21 | a card is in the product if and only if its rank is a rank and its suit is a suit |
| Cards.ProductDistinct | code/cardsNum02.py:21 | with no repeated ranks or suits, no card occurs twice |
| Cards.MakeFrenchDeck | code/cardsNum02.py:20-21 | the deck has \|SUITS\| × \|RANKS\| cards; its contents are stated by DeckAt, DeckMembers and DeckExactlyOnce |
| Cards.DeckSize | code/cardsNum02.py:20-21 | the deck has \|SUITS\| × \|RANKS\| = 52 cards |
| Cards.DeckAt | code/cardsNum02.py:20-21 | card `i` is `PlayingCard(RANKS[i % 13], SUITS[i / 13])`: the suit varies slowest |
| Cards.DeckEnds | code/cardsNum02.py:20-21 | the deck starts with the 2 of ♣ and ends with the A of ♠ |
| Cards.DeckMembers | code/cardsNum02.py:20-21 | a card is in the deck if and only if its rank is in `RANKS` and its suit in `SUITS` |
| Cards.DeckExactlyOnce | code/cardsNum02.py:20-21 | every rank-suit pair occurs in the deck exactly once |
| Cards.DeckDistinct | code/cardsNum02.py:20-21 | no card occurs twice in the deck |
| Cards.Repr | code/cardsNum02.py:5-8 | the dataclass repr of a card is `PlayingCard(rank=<repr of rank>, suit=<repr of suit>)`, rank before suit |
| Cards.ReprOfPlainCard | code/cardsNum02.py:5-8 | a card whose fields need no escaping prints as `PlayingCard(rank='r', suit='s')`, with rank before suit |
| Cards.ReprInjective | code/cardsNum02.py:5-8 | two cards print the same if and only if they are the same card |
| Cards.DeckEndsPrinted | code/cardsNum02.py:24-30 | the first and last cards print as the first and last entries of the recorded output |
| Cards.TwoOfClubsPrinted | code/cardsNum02.py:30 | a card equal to `PlayingCard('2', '♣')` prints as `PlayingCard(rank='2', suit='♣')` |
| Cards.AceOfSpadesPrinted | code/cardsNum02.py:30 | a card equal to `PlayingCard('A', '♠')` prints as `PlayingCard(rank='A', suit='♠')` |
| Cards.PrintedAs | code/cardsNum02.py:5-8 | a card whose rank is one character from `0` to `Z` and whose suit is one card-suit glyph (U+2660 to U+2667) prints as `PlayingCard(rank='r', suit='s')` |
| PyText.Repr | code/main.py:28-29 | computes `repr` of a string: the escaped text between two equal quote characters, single or double; stated by ReprOfPlain, ParseRepr and ReprInjective |
| PyText.QuoteFor | code/main.py:28-29 | the quote `repr` picks never occurs in the text, unless the text holds both kinds of quote |
| PyText.ReprOfPlain | code/main.py:28-29 | text without quotes, backslashes or control characters is written as itself wrapped in single quotes |
| PyText.ReprOfPlainPair | code/main.py:28-29 | two plain values placed inside surrounding text print as that text with each value in single quotes |
| PyText.ParseRepr | code/main.py:28-29 | the literal `repr` writes reads back as the original text, whatever follows it |
| PyText.ReprInjective | code/main.py:28-29 | two strings have the same `repr` if and only if they are equal |
| Records.Render | code/cardsNum02.py:5-8 | computes the dataclass text form `Cls(f1=<repr>, f2=<repr>, …)`; stated by RenderTwo, ParseRender and RenderInjective |
| Records.RenderTwo | code/cardsNum02.py:5-8 | a two-field record prints as `Cls(f=<repr>, g=<repr>)`, fields in declaration order |
| Records.ParseRender | code/cardsNum02.py:5-8 | a record's text form reads back as its field values, in order |
| Records.RenderInjective | code/cardsNum02.py:5-8 | records with the same field names print the same if and only if their fields are equal |
| RegularCards.Eq | code/main.py:31-34 | answers NotImplemented if and only if the other object is not a RegularCard; for a RegularCard, True if and only if the cards are equal |
| RegularCards.EqOtherClass | code/main.py:32-33 | comparing with another class's instance is neither True nor False |
| RegularCards.EqFields | code/main.py:34 | two RegularCards are equal exactly when both ranks and both suits are equal |
| RegularCards.EqEquivalence | code/main.py:31-34 | equality between RegularCards is reflexive, symmetric and transitive |
| RegularCards.Repr | code/main.py:27-29 | the hand-written repr is the same text as the dataclass form with fields `rank` then `suit` |
| RegularCards.ReprOfPlain | code/main.py:27-29 | with plain fields, the repr is `RegularCard(rank='r', suit='s')` |
| RegularCards.ReprRoundTrip | code/main.py:23-29 | the repr of a newly constructed card reads back as the constructor's arguments, unchanged |
| RegularCards.ReprAgreesWithEq | code/main.py:27-34 | two cards have the same repr if and only if `__eq__` calls them equal |
| Positions.SelfName | code/main.py:54 | the generated `__init__` names its first parameter `self` exactly when no field has that name; unless a field is called `__dataclass_self__`, that name never collides with a field |
| Positions.IndexOf | code/main.py:54 | the position of a parameter is its first occurrence among the fields |
| Positions.MissingNames | code/main.py:56-58 | the names reported missing are exactly the fields left without a value, and the list is empty exactly when every field has one |
| Positions.MissingNamesInOrder | code/main.py:56-58 | the missing names are listed in declaration order |
| Positions.BindKeywords | code/main.py:54 | binding keywords never overwrites a field already filled by a positional argument |
| Positions.BindKeywordsSpec | code/main.py:54 | binding keywords succeeds if and only if each names an empty field once, and it fills exactly those fields with their values |
| Positions.Init | code/main.py:54 | a successful call has no more positional arguments than fields and keeps them in their fields, in order; too many positional arguments always fail |
| Positions.InitSpec | code/main.py:54 | a call succeeds if and only if its arguments fit the fields; field i then holds positional argument i or else its keyword's value |
| Positions.UnboundFieldFails | code/main.py:56-58 | a field given neither positionally nor by keyword makes the call fail |
| Positions.FitNeedsThree | code/main.py:54 | arguments that fit the three Position fields number at least three, positional and keyword together |
| Positions.FewArgumentsFail | code/main.py:56-58 | fewer than three arguments in all never build a Position |
| Positions.NewPosition | code/main.py:54-60 | more than three positional arguments fail; three positional arguments that succeed bind name, lat and lon in that order |
| Positions.PositionalBinding | code/main.py:60 | `Position(a, b, c)` binds name=a, lat=b, lon=c |
| Positions.KeywordBinding | code/main.py:54 | `Position(a, lon=c, lat=b)` binds name=a, lat=b, lon=c |
| Positions.NameOnlyFails | code/main.py:56 | `Position('Null Island')` fails with lat and lon missing |
| Positions.NameAndLatFails | code/main.py:58 | `Position('Greenwich', lat=…)` fails with lon missing |
| Positions.KeywordErrors | code/main.py:54 | a keyword repeating a positional argument or naming `self` gives multiple values; an unknown keyword is rejected before surplus positional arguments |
| Positions.TooManyFails | code/main.py:54 | four positional arguments fail as "takes 4 positional arguments but 5 were given" |

## Left out

- Console output (`print`) in both files: it is I/O.
- `DataClassExample`, `NamedTupleCard`, the commented-out `attrs` class and `datetime.date`: these only show library behaviour, and the file adds no logic of its own to them.
- The first `@dataclass Position`, with float defaults: it is shadowed at once by the `make_dataclass` one.
- Floating point: coordinates are abstract values.
- The `Deck` dataclass: it is never used.
- The printed list of the whole deck: only the text form of single cards is modelled. The recorded output is cut short in the middle, so only its first and last entries are used.
- PyText.Repr: every non-ASCII character counts as printable. CPython writes non-printable non-ASCII characters as `\x`, `\u` or `\U` escapes. The card glyphs are printable, so the cards are unaffected.
- RegularCards.Repr: the class name is fixed as `RegularCard`. A subclass would print its own name through `self.__class__.__name__`, and subclasses are not modelled.
- RegularCards.Eq: this is `__eq__` alone. Python's `==` then tries the reflected `__eq__` and falls back to identity, and neither step is modelled.
- RegularCard fields: the model fixes both as strings, the types PlayingCard declares. Values whose `repr` or `==` behave differently from strings are not modelled.
- `make_dataclass`'s checks on field names (identifiers, keywords, duplicates) are not modelled. The lemmas assume distinct field names, which holds for Position.
- For `Positions.MissingArguments`, the model gives the list of missing names, not the wording of the TypeError message.
