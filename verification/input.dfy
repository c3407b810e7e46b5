/** The position list of `read_guess`. The guess pattern `^([a-z])(( [0-9]+)*)$` gives the
    letter as group 1 and the typed positions as group 2; group 2 is trimmed, split on single
    spaces and every piece parsed as an unsigned number. Only spaces and ASCII digits can
    occur in group 2, so the model works on those. */
module Input {
  import opened Wrappers
  import opened Seqs

  predicate IsDigit(c: char) {
    '0' <= c <= '9'
  }

  predicate AllDigits(t: string) {
    forall i :: 0 <= i < |t| ==> IsDigit(t[i])
  }

  function DigitValue(c: char): (d: nat)
    requires IsDigit(c)
    ensures d < 10
  {
    c as int - '0' as int
  }

  function DigitChar(d: nat): (c: char)
    requires d < 10
    ensures IsDigit(c) && DigitValue(c) == d
  {
    ('0' as int + d) as char
  }

  /** Decimal text of `n`, most significant digit first, without leading zeros. */
  function Decimal(n: nat): (s: string)
    ensures |s| >= 1 && AllDigits(s)
    ensures |s| > 1 ==> s[0] != '0'
    decreases n
  {
    if n < 10 then [DigitChar(n)]
    else Decimal(n / 10) + [DigitChar(n % 10)]
  }

  /** The largest `usize` on a 64-bit target. */
  const UsizeMax: nat := 0xFFFF_FFFF_FFFF_FFFF

  /** Every number fits in a `usize`. */
  predicate InUsize(ps: seq<nat>) {
    forall k :: 0 <= k < |ps| ==> ps[k] <= UsizeMax
  }

  /** The value of a digit string, most significant digit first. */
  function DigitsValue(t: string): nat
    requires AllDigits(t)
    decreases |t|
  {
    if |t| == 0 then 0 else 10 * DigitsValue(t[..|t| - 1]) + DigitValue(t[|t| - 1])
  }

  /** Reads one piece as a `usize`: `None` for an empty piece, one holding a non-digit, or one
      whose value does not fit. The value of a digit string only grows digit by digit, so the
      overflow checks made while reading fail exactly when the whole value does not fit. */
  function ParseNat(t: string): (r: Option<nat>)
    ensures r.Some? <==> |t| > 0 && AllDigits(t) && DigitsValue(t) <= UsizeMax
    ensures r.Some? ==> r.value <= UsizeMax
  {
    if |t| == 0 || !AllDigits(t) || DigitsValue(t) > UsizeMax then None
    else Some(DigitsValue(t))
  }

  /** Parsing undoes printing, for every number that fits in a `usize`; larger ones fail. */
  lemma {:induction false} ParseDecimal(n: nat)
    ensures DigitsValue(Decimal(n)) == n
    ensures ParseNat(Decimal(n)) == if n <= UsizeMax then Some(n) else None
    decreases n
  {
    if n >= 10 {
      var s := Decimal(n);
      assert s[..|s| - 1] == Decimal(n / 10);
      ParseDecimal(n / 10);
    }
  }

  /** Drops the leading spaces (the only whitespace group 2 can hold). */
  function TrimStart(s: string): (r: string)
    ensures |r| <= |s| && r == s[|s| - |r|..]
    ensures forall i :: 0 <= i < |s| - |r| ==> s[i] == ' '
    ensures |r| > 0 ==> r[0] != ' '
  {
    if |s| > 0 && s[0] == ' ' then TrimStart(s[1..]) else s
  }

  /** Drops the trailing spaces (the only whitespace group 2 can hold). */
  function TrimEnd(s: string): (r: string)
    ensures |r| <= |s| && r == s[..|r|]
    ensures forall i :: |r| <= i < |s| ==> s[i] == ' '
    ensures |r| > 0 ==> r[|r| - 1] != ' '
  {
    if |s| > 0 && s[|s| - 1] == ' ' then TrimEnd(s[..|s| - 1]) else s
  }

  /** Drops the spaces at both ends. */
  function Trim(s: string): (r: string)
    ensures |r| <= |s|
    ensures |r| == 0 <==> forall i :: 0 <= i < |s| ==> s[i] == ' '
    ensures |r| > 0 ==> r[0] != ' ' && r[|r| - 1] != ' '
  {
    var t := TrimStart(s);
    var r := TrimEnd(t);
    assert |r| > 0 ==> r[0] == t[0];
    r
  }

  /** Glues pieces back together with one space between neighbours. */
  function Join(pieces: seq<string>): string
    requires |pieces| >= 1
    decreases |pieces|
  {
    if |pieces| == 1 then pieces[0] else pieces[0] + " " + Join(pieces[1..])
  }

  /** Splitting on single spaces: the maximal space-free pieces between them. There is always
      one piece more than there are spaces, so the empty text gives one empty piece. */
  function Split(s: string): (r: seq<string>)
    ensures |r| >= 1
    ensures forall k :: 0 <= k < |r| ==> ' ' !in r[k]
  {
    if |s| == 0 then [""]
    else if s[0] == ' ' then [""] + Split(s[1..])
    else
      var rest := Split(s[1..]);
      [[s[0]] + rest[0]] + rest[1..]
  }

  lemma JoinHead(c: char, pieces: seq<string>)
    requires |pieces| >= 1
    ensures Join([[c] + pieces[0]] + pieces[1..]) == [c] + Join(pieces)
  {
    var q := [[c] + pieces[0]] + pieces[1..];
    if |pieces| > 1 {
      assert q[1..] == pieces[1..];
    }
  }

  /** Joining the pieces of a split gives the text back. */
  lemma {:induction false} JoinSplit(s: string)
    ensures Join(Split(s)) == s
  {
    if |s| > 0 {
      JoinSplit(s[1..]);
      if s[0] == ' ' {
        assert ([""] + Split(s[1..]))[1..] == Split(s[1..]);
      } else {
        JoinHead(s[0], Split(s[1..]));
      }
      assert s == [s[0]] + s[1..];
    }
  }

  lemma {:induction false} SplitPrefix(d: string, s: string)
    requires ' ' !in d
    ensures Split(d + s) == [d + Split(s)[0]] + Split(s)[1..]
    decreases |d|
  {
    var t := Split(s);
    if |d| > 0 {
      assert (d + s)[1..] == d[1..] + s;
      SplitPrefix(d[1..], s);
      var rest := Split(d[1..] + s);
      assert rest[0] == d[1..] + t[0] && rest[1..] == t[1..];
      assert [d[0]] + rest[0] == d + t[0];
    } else {
      assert d + s == s && d + t[0] == t[0];
      assert t == [t[0]] + t[1..];
    }
  }

  /** Splitting joined space-free pieces gives the pieces back. */
  lemma {:induction false} SplitJoin(pieces: seq<string>)
    requires |pieces| >= 1
    requires forall k :: 0 <= k < |pieces| ==> ' ' !in pieces[k]
    ensures Split(Join(pieces)) == pieces
    decreases |pieces|
  {
    if |pieces| == 1 {
      SplitPrefix(pieces[0], "");
      assert pieces[0] + "" == pieces[0];
    } else {
      var tail := Join(pieces[1..]);
      SplitJoin(pieces[1..]);
      assert pieces[0] + " " + tail == pieces[0] + (" " + tail);
      SplitPrefix(pieces[0], " " + tail);
      assert (" " + tail)[1..] == tail;
      assert Split(" " + tail) == [""] + pieces[1..];
      assert pieces[0] + "" == pieces[0];
      assert pieces == [pieces[0]] + pieces[1..];
    }
  }

  /** Parses every piece as a number, in order; `None` stands for the panic raised at the
      first piece that does not parse. */
  function ParseAll(pieces: seq<string>): (r: Option<seq<nat>>)
    ensures r.Some? <==> forall k :: 0 <= k < |pieces| ==> ParseNat(pieces[k]).Some?
    ensures r.Some? ==> |r.value| == |pieces|
    ensures r.Some? ==> forall k :: 0 <= k < |pieces| ==> ParseNat(pieces[k]) == Some(r.value[k])
  {
    if |pieces| == 0 then Some([])
    else
      match ParseNat(pieces[0])
      case None => None
      case Some(v) =>
        match ParseAll(pieces[1..])
        case None =>
          assert exists k :: 0 <= k < |pieces| && ParseNat(pieces[k]).None? by {
            var k :| 0 <= k < |pieces[1..]| && ParseNat(pieces[1..][k]).None?;
            assert pieces[k + 1] == pieces[1..][k];
          }
          None
        case Some(vs) =>
          assert forall k :: 1 <= k < |pieces| ==> pieces[k] == pieces[1..][k - 1];
          Some([v] + vs)
  }

  /** The text of group 2 for the given pieces: each one preceded by a single space. This is
      exactly the language of `(( [0-9]+)*)` when every piece is a non-empty digit string. */
  function Group(pieces: seq<string>): string {
    if |pieces| == 0 then "" else " " + pieces[0] + Group(pieces[1..])
  }

  /** What a user types after the letter for the positions `ps`, written in decimal. */
  function Typed(ps: seq<nat>): string {
    Group(MapSeq(ps, Decimal))
  }

  /** Group 2 of a guess as the source handles it: trim, split on spaces, parse every piece.
      Blank text never reads as a position list, and a successful read has a position. */
  function PositionsAsWritten(group: string): (r: Option<seq<nat>>)
    ensures Trim(group) == "" ==> r.None?
    ensures r.Some? ==> |r.value| >= 1
  {
    assert Trim(group) == "" ==> Split(Trim(group)) == [""] && ParseNat("") == None;
    ParseAll(Split(Trim(group)))
  }

  /** Group 2 of a guess as evidently intended: no typed positions means the letter is absent
      (the branch for a missing group 2 returns an empty list, but never runs). */
  function Positions(group: string): (r: Option<seq<nat>>)
    ensures r == Some([]) <==> Trim(group) == ""
    ensures Trim(group) != "" ==> r == PositionsAsWritten(group)
  {
    if Trim(group) == "" then Some([]) else PositionsAsWritten(group)
  }

  /** Typing a letter alone (group 2 empty) makes the source panic. */
  lemma AbsentLetterPanics()
    ensures Typed([]) == ""
    ensures PositionsAsWritten(Typed([])) == None
  {
    assert Split("") == [""];
    assert ParseNat("") == None;
  }

  predicate DigitPieces(pieces: seq<string>) {
    forall k :: 0 <= k < |pieces| ==> |pieces[k]| > 0 && AllDigits(pieces[k])
  }

  lemma {:induction false} GroupIsSpaceJoin(pieces: seq<string>)
    requires |pieces| >= 1
    ensures Group(pieces) == " " + Join(pieces)
    decreases |pieces|
  {
    if |pieces| > 1 {
      GroupIsSpaceJoin(pieces[1..]);
    } else {
      assert Group(pieces[1..]) == "";
    }
  }

  lemma {:induction false} JoinEnds(pieces: seq<string>)
    requires |pieces| >= 1 && DigitPieces(pieces)
    ensures |Join(pieces)| > 0
    ensures IsDigit(Join(pieces)[0]) && IsDigit(Join(pieces)[|Join(pieces)| - 1])
    decreases |pieces|
  {
    if |pieces| > 1 {
      JoinEnds(pieces[1..]);
    }
  }

  /** For non-empty digit pieces, trimming group 2 removes exactly its leading space. */
  lemma TrimGroup(pieces: seq<string>)
    requires |pieces| >= 1 && DigitPieces(pieces)
    ensures Trim(Group(pieces)) == Join(pieces)
  {
    GroupIsSpaceJoin(pieces);
    JoinEnds(pieces);
    var j := Join(pieces);
    assert (" " + j)[1..] == j;
    assert TrimStart(j) == j;
    assert TrimStart(" " + j) == j;
  }

  /** Whatever group 2 the pattern admits with at least one position, the source reads
      exactly those pieces, in order. */
  lemma PositionsAsWrittenReads(pieces: seq<string>)
    requires |pieces| >= 1 && DigitPieces(pieces)
    ensures PositionsAsWritten(Group(pieces)) == ParseAll(pieces)
  {
    TrimGroup(pieces);
    assert forall k :: 0 <= k < |pieces| ==> ' ' !in pieces[k];
    SplitJoin(pieces);
  }

  /** The source reads typed positions back exactly when at least one was typed and all fit
      in a `usize`. */
  lemma PositionsAsWrittenRoundTrip(ps: seq<nat>)
    ensures PositionsAsWritten(Typed(ps)) == Some(ps) <==> |ps| > 0 && InUsize(ps)
  {
    if |ps| == 0 {
      AbsentLetterPanics();
    } else {
      TypedReads(ps);
    }
  }

  /** A non-empty typed list is read back when every position fits, and panics otherwise. */
  lemma TypedReads(ps: seq<nat>)
    requires |ps| > 0
    ensures PositionsAsWritten(Typed(ps)) == if InUsize(ps) then Some(ps) else None
  {
    var pieces := MapSeq(ps, Decimal);
    assert DigitPieces(pieces) by {
      forall k | 0 <= k < |pieces| ensures |pieces[k]| > 0 && AllDigits(pieces[k]) {
        assert pieces[k] == Decimal(ps[k]);
      }
    }
    PositionsAsWrittenReads(pieces);
    if InUsize(ps) {
      forall k | 0 <= k < |ps| ensures ParseNat(pieces[k]) == Some(ps[k]) {
        assert pieces[k] == Decimal(ps[k]);
        ParseDecimal(ps[k]);
      }
      var r := ParseAll(pieces).value;
      assert forall k :: 0 <= k < |ps| ==> r[k] == ps[k];
      assert r == ps;
    } else {
      var k :| 0 <= k < |ps| && ps[k] > UsizeMax;
      assert pieces[k] == Decimal(ps[k]);
      ParseDecimal(ps[k]);
    }
  }

  /** The corrected reading returns every typed position list that fits in `usize`, the
      empty one included. */
  lemma PositionsRoundTrip(ps: seq<nat>)
    ensures Positions(Typed(ps)) == Some(ps) <==> InUsize(ps)
    ensures !InUsize(ps) ==> Positions(Typed(ps)) == None
  {
    if |ps| == 0 {
      assert Typed(ps) == "";
    } else {
      var pieces := MapSeq(ps, Decimal);
      assert DigitPieces(pieces) by {
        forall k | 0 <= k < |pieces| ensures |pieces[k]| > 0 && AllDigits(pieces[k]) {
          assert pieces[k] == Decimal(ps[k]);
        }
      }
      TrimGroup(pieces);
      JoinEnds(pieces);
      TypedReads(ps);
    }
  }
}
