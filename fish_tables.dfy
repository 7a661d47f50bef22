/**
 * The fish tables the evaluator of `help.py` builds once from the raw per-fish
 * metadata: the score of every fish id, and a type index for every fish that
 * enumerates the distinct scores.
 *
 * The raw metadata is an ordered list of (key, value) entries, as a Python
 * dict iterates. The entry keyed "game_over" is dropped. Every other key must
 * contain "fish", and the text between its first and second occurrence of
 * "fish" (or the end) must be a decimal number: that number is the fish id.
 * Every other value must be a record with a score. When two keys give the
 * same id, the later entry wins.
 */
module FishTables {
  import opened Wrappers
  import opened Sets

  datatype RawValue = FishRecord(score: int) | Malformed

  type Entry = (string, RawValue)

  datatype TableError =
    | NoFishInKey(key: string)   // `split('fish')[1]` has no second piece
    | BadId(key: string)         // the piece is not a decimal number
    | NoScore(key: string)       // the value has no score

  const GameOverKey: string := "game_over"
  const FishWord: string := "fish"

  predicate IsDigit(c: char) {
    '0' <= c <= '9'
  }

  /** `pat` occurs in `s` starting at position `j`. */
  predicate OccursAt(s: string, pat: string, j: nat) {
    j + |pat| <= |s| && s[j..j + |pat|] == pat
  }

  lemma OccursAtShift(s: string, pat: string, j: nat)
    requires 1 <= j && |s| > 0
    ensures OccursAt(s, pat, j) <==> OccursAt(s[1..], pat, j - 1)
  {
    if j + |pat| <= |s| {
      var a, b := s[j..j + |pat|], s[1..][j - 1..j - 1 + |pat|];
      assert |a| == |b| && forall k :: 0 <= k < |a| ==> a[k] == b[k];
      assert a == b;
    }
  }

  /** The first position at which `pat` occurs in `s` (`str.find`). */
  function Find(s: string, pat: string): (r: Option<nat>)
    requires |pat| > 0
    ensures r.Some? ==> OccursAt(s, pat, r.value)
    ensures r.Some? ==> forall j: nat :: j < r.value ==> !OccursAt(s, pat, j)
    ensures r.None? ==> forall j: nat :: !OccursAt(s, pat, j)
    decreases |s|
  {
    if |s| < |pat| then None
    else if s[..|pat|] == pat then Some(0)
    else
      assert !OccursAt(s, pat, 0);
      match Find(s[1..], pat)
      case None =>
        assert forall j: nat :: 1 <= j ==> !OccursAt(s, pat, j) by {
          forall j: nat | 1 <= j ensures !OccursAt(s, pat, j) { OccursAtShift(s, pat, j); }
        }
        None
      case Some(i) =>
        OccursAtShift(s, pat, i + 1);
        assert forall j: nat :: 1 <= j < i + 1 ==> !OccursAt(s, pat, j) by {
          forall j: nat | 1 <= j < i + 1 ensures !OccursAt(s, pat, j) { OccursAtShift(s, pat, j); }
        }
        Some(i + 1)
  }

  /** `key.split('fish')[1]`: the text after the first "fish", up to the next
      "fish" or the end; none when the key does not contain "fish". */
  function SecondPiece(key: string): (r: Option<string>)
    ensures r.Some? <==> Find(key, FishWord).Some?
  {
    match Find(key, FishWord)
    case None => None
    case Some(i) =>
      var rest := key[i + |FishWord|..];
      match Find(rest, FishWord)
      case None => Some(rest)
      case Some(j) => Some(rest[..j])
  }

  /** The value of a non-empty string of decimal digits. */
  function ParseDecimal(s: string): (r: Option<nat>)
    ensures r.Some? <==> |s| > 0 && forall j :: 0 <= j < |s| ==> IsDigit(s[j])
    decreases |s|
  {
    if |s| == 0 || !IsDigit(s[|s| - 1]) then None
    else if |s| == 1 then Some((s[0] as int) - ('0' as int))
    else
      match ParseDecimal(s[..|s| - 1])
      case None => None
      case Some(n) => Some(10 * n + ((s[|s| - 1] as int) - ('0' as int)))
  }

  /** The decimal rendering of a number, without leading zeros. */
  function Decimal(n: nat): (s: string)
    ensures |s| > 0 && forall j :: 0 <= j < |s| ==> IsDigit(s[j])
    ensures |s| > 1 ==> s[0] != '0'
  {
    if n < 10 then [('0' as int + n) as char]
    else Decimal(n / 10) + [('0' as int + n % 10) as char]
  }

  lemma {:induction false} ParseDecimalInvertsDecimal(n: nat)
    ensures ParseDecimal(Decimal(n)) == Some(n)
  {
    if n >= 10 {
      var s := Decimal(n);
      assert s[..|s| - 1] == Decimal(n / 10);
      ParseDecimalInvertsDecimal(n / 10);
    }
  }

  /** `int(key.split('fish')[1])`, for keys whose piece is plain decimal digits. */
  function FishId(key: string): (r: Result<int, TableError>)
    ensures r.Err? ==> r.error == NoFishInKey(key) || r.error == BadId(key)
    ensures r.Ok? ==> r.value >= 0
  {
    match SecondPiece(key)
    case None => Err(NoFishInKey(key))
    case Some(piece) =>
      match ParseDecimal(piece)
      case None => Err(BadId(key))
      case Some(n) => Ok(n)
  }

  /** A decimal rendering never contains "fish": it is all digits. */
  lemma NoFishInDecimal(n: nat)
    ensures Find(Decimal(n), FishWord).None?
  {
    var s := Decimal(n);
    forall j: nat | j + |FishWord| <= |s|
      ensures !OccursAt(s, FishWord, j)
    {
      assert s[j..j + |FishWord|][0] == s[j];
    }
  }

  /** The usual key "fish<n>" names fish n. */
  lemma FishKeyRoundTrip(n: nat)
    ensures FishId(FishWord + Decimal(n)) == Ok(n)
  {
    var key := FishWord + Decimal(n);
    assert key[..|FishWord|] == FishWord;
    assert key[|FishWord|..] == Decimal(n);
    NoFishInDecimal(n);
    ParseDecimalInvertsDecimal(n);
  }

  /** The entries the table is built from: all but "game_over". */
  predicate Counted(e: Entry) {
    e.0 != GameOverKey
  }

  /** An entry that yields a (fish id, score) pair. */
  predicate WellFormed(e: Entry) {
    FishId(e.0).Ok? && e.1.FishRecord?
  }

  /** The score table: each counted entry in order, the later winning; the
      first counted entry that cannot be read is the error. */
  function ScoreTable(data: seq<Entry>): (r: Result<map<int, int>, TableError>)
    ensures r.Ok? <==> forall j :: 0 <= j < |data| && Counted(data[j]) ==> WellFormed(data[j])
    decreases |data|
  {
    if data == [] then Ok(map[])
    else
      var init := data[..|data| - 1];
      var e := data[|data| - 1];
      assert forall j :: 0 <= j < |init| ==> init[j] == data[j];
      match ScoreTable(init)
      case Err(err) => Err(err)
      case Ok(m) =>
        if !Counted(e) then Ok(m)
        else
          match FishId(e.0)
          case Err(err) => Err(err)
          case Ok(f) =>
            if e.1.Malformed? then Err(NoScore(e.0))
            else Ok(m[f := e.1.score])
  }

  /** Once a prefix of the entries fails, the whole table fails the same way. */
  lemma {:induction false} ScoreTableKeepsError(data: seq<Entry>, n: nat)
    requires n <= |data| && ScoreTable(data[..n]).Err?
    ensures ScoreTable(data) == ScoreTable(data[..n])
    decreases |data| - n
  {
    if n < |data| {
      assert data[..n + 1][..n] == data[..n];
      ScoreTableKeepsError(data, n + 1);
    } else {
      assert data[..n] == data;
    }
  }

  /** The table's fish are exactly the ids of the counted entries. */
  lemma {:induction false} ScoreTableKeys(data: seq<Entry>, f: int)
    requires ScoreTable(data).Ok?
    ensures f in ScoreTable(data).value <==>
              exists j :: 0 <= j < |data| && Counted(data[j]) && FishId(data[j].0) == Ok(f)
    decreases |data|
  {
    if data != [] {
      var init := data[..|data| - 1];
      assert forall j :: 0 <= j < |init| ==> init[j] == data[j];
      ScoreTableKeys(init, f);
      var e := data[|data| - 1];
      if Counted(e) && FishId(e.0) == Ok(f) {
        assert Counted(data[|data| - 1]);
      }
    }
  }

  /** A fish's score is the one given by the last counted entry naming it. */
  lemma {:induction false} ScoreTableLastWins(data: seq<Entry>, j: nat)
    requires ScoreTable(data).Ok?
    requires j < |data| && Counted(data[j])
    requires forall j' :: j < j' < |data| && Counted(data[j']) ==> FishId(data[j'].0) != FishId(data[j].0)
    ensures FishId(data[j].0).Ok?
    ensures FishId(data[j].0).value in ScoreTable(data).value
    ensures ScoreTable(data).value[FishId(data[j].0).value] == data[j].1.score
    decreases |data|
  {
    assert WellFormed(data[j]);
    var init := data[..|data| - 1];
    assert forall k :: 0 <= k < |init| ==> init[k] == data[k];
    if j < |data| - 1 {
      ScoreTableLastWins(init, j);
    }
  }

  /** The number of distinct scores strictly below `s`: the type index. */
  function Rank(scores: set<int>, s: int): nat {
    |set v | v in scores && v < s|
  }

  /** `set(fish_scores.values())`: the distinct scores. */
  function DistinctScores(fishScores: map<int, int>): set<int> {
    set f | f in fishScores :: fishScores[f]
  }

  /** The type table: each fish gets the index of its score among the
      distinct scores. */
  function TypeTable(fishScores: map<int, int>): (types: map<int, nat>)
    ensures types.Keys == fishScores.Keys
  {
    map f | f in fishScores :: Rank(DistinctScores(fishScores), fishScores[f])
  }

  /** Below a larger score there are strictly more distinct scores. */
  lemma RankIncreases(scores: set<int>, a: int, b: int)
    requires a in scores && a < b
    ensures Rank(scores, a) < Rank(scores, b)
  {
    var below := set v | v in scores && v < a;
    var upTo := set v | v in scores && v < b;
    assert below + {a} <= upTo;
    assert a !in below;
    assert |below + {a}| == |below| + 1;
    assert upTo == (below + {a}) + (upTo - (below + {a}));
  }

  /** Every type index is below the number of distinct scores. */
  lemma RankBounded(scores: set<int>, s: int)
    requires s in scores
    ensures Rank(scores, s) < |scores|
  {
    var below := set v | v in scores && v < s;
    assert below <= scores - {s};
    assert scores - {s} + (below) == scores - {s};
    assert |scores - {s}| == |scores| - 1;
    assert (scores - {s}) == below + ((scores - {s}) - below);
  }

  /** Two fish share a type exactly when they share a score, and every type
      index is below the number of distinct scores. */
  lemma TypesEnumerateScores(fishScores: map<int, int>, f: int, g: int)
    requires f in fishScores && g in fishScores
    ensures var types := TypeTable(fishScores);
            && (types[f] == types[g] <==> fishScores[f] == fishScores[g])
            && types[f] < |DistinctScores(fishScores)|
  {
    var a, b := fishScores[f], fishScores[g];
    assert a in DistinctScores(fishScores) && b in DistinctScores(fishScores);
    if a < b {
      RankIncreases(DistinctScores(fishScores), a, b);
    } else if b < a {
      RankIncreases(DistinctScores(fishScores), b, a);
    }
    RankBounded(DistinctScores(fishScores), a);
  }

  /** The largest of a non-empty set of scores. */
  ghost function Largest(scores: set<int>): (m: int)
    requires scores != {}
    ensures m in scores && forall v :: v in scores ==> v <= m
    decreases scores
  {
    var x := Pick(scores);
    if scores - {x} == {} then
      assert forall v :: v in scores ==> v == x by {
        forall v | v in scores ensures v == x { assert v !in scores - {x}; }
      }
      x
    else
      var y := Largest(scores - {x});
      var m := if x < y then y else x;
      assert forall v :: v in scores ==> v <= m by {
        forall v | v in scores ensures v <= m { if v != x { assert v in scores - {x}; } }
      }
      m
  }

  /** The type indices fill 0 .. (number of distinct scores - 1): every index
      in that range belongs to some score. */
  lemma {:induction false} RanksAreDense(scores: set<int>, t: nat)
    requires t < |scores|
    ensures exists v :: v in scores && Rank(scores, v) == t
    decreases |scores|
  {
    var m := Largest(scores);
    var rest := scores - {m};
    assert (set v | v in scores && v < m) == rest;
    if t == |rest| {
      assert Rank(scores, m) == t;
    } else {
      RanksAreDense(rest, t);
      var v :| v in rest && Rank(rest, v) == t;
      assert (set w | w in scores && w < v) == (set w | w in rest && w < v);
      assert Rank(scores, v) == t;
    }
  }

  /** Every type index below the number of distinct scores is used by a fish. */
  lemma TypesAreDense(fishScores: map<int, int>, t: nat)
    requires t < |DistinctScores(fishScores)|
    ensures exists f :: f in fishScores && TypeTable(fishScores)[f] == t
  {
    RanksAreDense(DistinctScores(fishScores), t);
    var v :| v in DistinctScores(fishScores) && Rank(DistinctScores(fishScores), v) == t;
    var f :| f in fishScores && fishScores[f] == v;
    assert TypeTable(fishScores)[f] == t;
  }
}
