/**
 * The record tables and session rules of the team manager
 * (src/localsports/src/localsports.cpp, records in src/localsports/header/localsports.h).
 *
 * The binary files are the fields of a `TeamStore`; reading a file is reading a
 * field and writing it back is assigning the field. Each text field of a record
 * is held as the C string its `char` array stores: NUL-free and shorter than
 * the array. The values the console prompts return are parameters, except for
 * the two input loops (`readInt` and the registration name loop), which run over
 * a `Console` holding the remaining input lines.
 */
module LocalSports {
  import opened Common

  // ---------------- Record layouts ----------------

  const NAME_SIZE := 64
  const POSITION_SIZE := 32
  const PHONE_SIZE := 32
  const EMAIL_SIZE := 64
  const DATE_SIZE := 11
  const TIME_SIZE := 6
  const OPPONENT_SIZE := 64
  const LOCATION_SIZE := 64
  const RESULT_SIZE := 16
  const USERNAME_SIZE := 32
  const ROLE_SIZE := 16

  const INT32_MIN := -0x8000_0000
  const INT32_MAX := 0x7fff_ffff

  /** "admin" */
  const ADMIN: Bytes := [0x61, 0x64, 0x6d, 0x69, 0x6e]
  /** "member" */
  const MEMBER: Bytes := [0x6d, 0x65, 0x6d, 0x62, 0x65, 0x72]

  datatype Player = Player(id: u32, name: Bytes, position: Bytes, phone: Bytes, email: Bytes, active: bool)
  datatype Game = Game(id: u32, date: Bytes, time: Bytes, opponent: Bytes, location: Bytes, played: bool, result: Bytes)
  datatype Stat = Stat(id: u32, gameId: u32, playerId: u32, goals: int, assists: int, saves: int, yellow: int, red: int)
  datatype User = User(id: u32, username: Bytes, passHash: bv64, role: Bytes, active: bool)

  /** A C string that a `char[n]` array can hold. */
  predicate Fits(s: Bytes, n: nat)
  {
    |s| < n && forall i :: 0 <= i < |s| ==> s[i] != 0
  }

  predicate PlayerFits(p: Player)
  {
    Fits(p.name, NAME_SIZE) && Fits(p.position, POSITION_SIZE) && Fits(p.phone, PHONE_SIZE) && Fits(p.email, EMAIL_SIZE)
  }

  predicate GameFits(g: Game)
  {
    Fits(g.date, DATE_SIZE) && Fits(g.time, TIME_SIZE) && Fits(g.opponent, OPPONENT_SIZE)
    && Fits(g.location, LOCATION_SIZE) && Fits(g.result, RESULT_SIZE)
  }

  predicate UserFits(u: User)
  {
    Fits(u.username, USERNAME_SIZE) && Fits(u.role, ROLE_SIZE)
  }

  /** The ranges the stat prompts enforce: 0..100 for goals, assists and saves, 0..10 for cards. */
  predicate StatBounded(s: Stat)
  {
    0 <= s.goals <= 100 && 0 <= s.assists <= 100 && 0 <= s.saves <= 100 && 0 <= s.yellow <= 10 && 0 <= s.red <= 10
  }

  // ---------------- std::find_if ----------------

  /** The index of the first element satisfying `p`, as `std::find_if` finds it. */
  function FindIf<T>(s: seq<T>, p: T -> bool): (r: Option<nat>)
    ensures r.Some? ==> r.value < |s| && p(s[r.value]) && forall j :: 0 <= j < r.value ==> !p(s[j])
    ensures r.None? ==> forall j :: 0 <= j < |s| ==> !p(s[j])
  {
    if s == [] then None
    else if p(s[0]) then Some(0)
    else match FindIf(s[1..], p)
      case None => None
      case Some(k) => Some(k + 1)
  }

  // ---------------- FNV-1a 64 ----------------

  const FNV_OFFSET: bv64 := 1469598103934665603
  const FNV_PRIME: bv64 := 1099511628211

  /** One byte of FNV-1a: XOR the byte in, then multiply by the prime modulo 2^64. */
  function FnvStep(h: bv64, c: byte): bv64
  {
    (h ^ (c as bv64)) * FNV_PRIME
  }

  /** FNV-1a from state `h` over the bytes of `s`, first byte first. */
  function FnvFrom(h: bv64, s: Bytes): bv64
  {
    if s == [] then h else FnvStep(FnvFrom(h, s[..|s| - 1]), s[|s| - 1])
  }

  function FnvHash(s: Bytes): bv64
  {
    FnvFrom(FNV_OFFSET, s)
  }

  /** Hashing is streaming: the hash of a concatenation continues from the hash of its first part. */
  lemma {:induction false} FnvConcat(h: bv64, a: Bytes, b: Bytes)
    ensures FnvFrom(h, a + b) == FnvFrom(FnvFrom(h, a), b)
  {
    if b != [] {
      assert (a + b)[..|a + b| - 1] == a + b[..|b| - 1];
      assert (a + b)[|a + b| - 1] == b[|b| - 1];
      FnvConcat(h, a, b[..|b| - 1]);
    } else {
      assert a + b == a;
    }
  }

  /** fnv1a64: the byte loop; the empty string hashes to the offset basis. */
  method Fnv1a64(s: Bytes) returns (h: bv64)
    ensures h == FnvHash(s)
    ensures s == [] ==> h == FNV_OFFSET
  {
    h := FNV_OFFSET;
    var i := 0;
    while i < |s|
      invariant 0 <= i <= |s|
      invariant h == FnvFrom(FNV_OFFSET, s[..i])
    {
      assert s[..i + 1][..i] == s[..i];
      h := FnvStep(h, s[i]);
      i := i + 1;
    }
    assert s[..i] == s;
  }

  // ---------------- nextId ----------------

  /** The largest id, or 0 for an empty table. */
  function MaxId(ids: seq<u32>): (m: u32)
    ensures forall i :: 0 <= i < |ids| ==> ids[i] <= m
    ensures ids == [] ==> m == 0
    ensures ids != [] ==> m in ids
  {
    if ids == [] then 0
    else
      var m := MaxId(ids[..|ids| - 1]);
      assert ids == ids[..|ids| - 1] + [ids[|ids| - 1]];
      if ids[|ids| - 1] > m then ids[|ids| - 1] else m
  }

  /** One more than the largest id, wrapping to 0 after 2^32 - 1 as the `uint32_t` increment does. */
  function NextFree(ids: seq<u32>): u32
  {
    (MaxId(ids) + 1) % WORD
  }

  /**
   * nextId: a running maximum then `+ 1` in `uint32_t`. The result exceeds every
   * id unless the maximum is 2^32 - 1, where it wraps to 0.
   */

  method NextId(ids: seq<u32>) returns (r: u32)
    ensures r == NextFree(ids)
    ensures ids == [] ==> r == 1
    ensures MaxId(ids) < WORD - 1 ==> forall i :: 0 <= i < |ids| ==> ids[i] < r
    ensures MaxId(ids) == WORD - 1 ==> r == 0
  {
    var m: u32 := 0;
    var i := 0;
    while i < |ids|
      invariant 0 <= i <= |ids|
      invariant m == MaxId(ids[..i])
    {
      assert ids[..i + 1][..i] == ids[..i];
      if ids[i] > m {
        m := ids[i];
      }
      i := i + 1;
    }
    assert ids[..i] == ids;
    r := (m + 1) % WORD;
  }

  function PlayerIds(ps: seq<Player>): (r: seq<u32>)
    ensures |r| == |ps| && forall i :: 0 <= i < |ps| ==> r[i] == ps[i].id
  {
    seq(|ps|, i requires 0 <= i < |ps| => ps[i].id)
  }

  function GameIds(gs: seq<Game>): (r: seq<u32>)
    ensures |r| == |gs| && forall i :: 0 <= i < |gs| ==> r[i] == gs[i].id
  {
    seq(|gs|, i requires 0 <= i < |gs| => gs[i].id)
  }

  function StatIds(ss: seq<Stat>): (r: seq<u32>)
    ensures |r| == |ss| && forall i :: 0 <= i < |ss| ==> r[i] == ss[i].id
  {
    seq(|ss|, i requires 0 <= i < |ss| => ss[i].id)
  }

  function UserIds(us: seq<User>): (r: seq<u32>)
    ensures |r| == |us| && forall i :: 0 <= i < |us| ==> r[i] == us[i].id
  {
    seq(|us|, i requires 0 <= i < |us| => us[i].id)
  }

  // ---------------- copyTo ----------------

  /**
   * copyTo(dst, n, s): `snprintf(dst, n, "%s", s.c_str())` stores the first
   * min(|c|, n - 1) bytes of the C string c of `s`, then a NUL.
   */
  function CopyTo(n: nat, src: Bytes): (r: Bytes)
    requires n > 0
    ensures |r| == Min(|CString(src)|, n - 1)
    ensures r == src[..|r|]
    ensures Fits(r, n)
  {
    var c := CString(src);
    if |c| < n then c else c[..n - 1]
  }

  /** A string that already fits the array is stored unchanged. */
  lemma CopyToFitting(n: nat, src: Bytes)
    requires n > 0 && Fits(src, n)
    ensures CopyTo(n, src) == src
  {
    CStringOfNulFree(src);
  }

  // ---------------- readInt acceptance ----------------

  /** isspace in the C locale. */
  predicate IsSpace(c: byte)
  {
    c == 0x20 || (0x09 <= c && c <= 0x0d)
  }

  predicate IsDigit(c: byte)
  {
    0x30 <= c && c <= 0x39
  }

  predicate AllDigits(s: Bytes)
  {
    forall i :: 0 <= i < |s| ==> IsDigit(s[i])
  }

  function DigitValue(c: byte): nat
    requires IsDigit(c)
  {
    (c - 0x30) as nat
  }

  /** The value of a decimal digit string, most significant digit first. */
  function DecimalValue(s: Bytes): nat
    requires AllDigits(s)
  {
    if s == [] then 0 else 10 * DecimalValue(s[..|s| - 1]) + DigitValue(s[|s| - 1])
  }

  /**
   * What `std::stoi(s, &idx)` with `idx == s.size()` accepts: leading white space,
   * an optional sign, at least one decimal digit and nothing after the digits,
   * with the value inside the 32-bit `int` range (otherwise `stoi` throws).
   */
  function ParseInt(s: Bytes): (r: Option<int>)
    ensures r.Some? ==> INT32_MIN <= r.value <= INT32_MAX
  {
    if s != [] && IsSpace(s[0]) then ParseInt(s[1..])
    else
      var neg := s != [] && s[0] == 0x2d;
      var body := if s != [] && (s[0] == 0x2d || s[0] == 0x2b) then s[1..] else s;
      if body == [] || !AllDigits(body) then None
      else
        var v: int := if neg then -(DecimalValue(body) as int) else DecimalValue(body);
        if INT32_MIN <= v <= INT32_MAX then Some(v) else None
  }

  /** readInt's acceptance test for one line: a full-string integer within [lo, hi]. */
  function Accept(s: Bytes, lo: int, hi: int): (r: Option<int>)
    ensures r.Some? <==> ParseInt(s).Some? && lo <= ParseInt(s).value <= hi
    ensures r.Some? ==> r.value == ParseInt(s).value
  {
    match ParseInt(s)
    case Some(v) => if lo <= v <= hi then Some(v) else None
    case None => None
  }

  function DigitByte(d: nat): (c: byte)
    requires d < 10
    ensures IsDigit(c) && DigitValue(c) == d
  {
    (0x30 + d) as byte
  }

  /** The decimal digits of n, as `operator<<` prints them. */
  function Digits(n: nat): (r: Bytes)
    ensures r != [] && AllDigits(r)
  {
    if n < 10 then [DigitByte(n)] else Digits(n / 10) + [DigitByte(n % 10)]
  }

  function Decimal(v: int): Bytes
  {
    if v < 0 then [0x2d] + Digits(-v) else Digits(v)
  }

  lemma {:induction false} DigitsValue(n: nat)
    ensures DecimalValue(Digits(n)) == n
  {
    if n >= 10 {
      DigitsValue(n / 10);
      var d := Digits(n);
      assert d[..|d| - 1] == Digits(n / 10);
    }
  }

  /** A digit string in range is accepted as its value. */
  lemma ParseUnsigned(d: Bytes)
    requires d != [] && AllDigits(d) && DecimalValue(d) <= INT32_MAX
    ensures ParseInt(d) == Some(DecimalValue(d) as int)
  {
    assert IsDigit(d[0]);
  }

  /** A minus sign and a digit string in range is accepted as the negated value. */
  lemma ParseNegative(d: Bytes)
    requires d != [] && AllDigits(d) && DecimalValue(d) <= -INT32_MIN
    ensures ParseInt([0x2d] + d) == Some(-(DecimalValue(d) as int))
  {
    var s := [0x2d] + d;
    assert s[0] == 0x2d;
    assert s[1..] == d;
  }

  /** Every 32-bit integer written in decimal is accepted back as itself. */
  lemma DecimalRoundTrip(v: int)
    requires INT32_MIN <= v <= INT32_MAX
    ensures ParseInt(Decimal(v)) == Some(v)
  {
    if v < 0 {
      DigitsValue(-v);
      ParseNegative(Digits(-v));
    } else {
      DigitsValue(v);
      ParseUnsigned(Digits(v));
    }
  }

  /** Leading white space is skipped. */
  lemma {:induction false} LeadingSpaceSkipped(ws: Bytes, s: Bytes)
    requires forall i :: 0 <= i < |ws| ==> IsSpace(ws[i])
    ensures ParseInt(ws + s) == ParseInt(s)
  {
    if ws != [] {
      assert (ws + s)[0] == ws[0];
      assert (ws + s)[1..] == ws[1..] + s;
      LeadingSpaceSkipped(ws[1..], s);
    } else {
      assert ws + s == s;
    }
  }

  /** Anything but a digit after the number (a trailing space included) makes the line rejected. */
  lemma {:induction false} TrailingRejected(s: Bytes, c: byte)
    requires !IsDigit(c)
    ensures ParseInt(s + [c]) == None
  {
    if s != [] && IsSpace(s[0]) {
      assert (s + [c])[1..] == s[1..] + [c];
      TrailingRejected(s[1..], c);
    } else {
      var t := s + [c];
      var body := if t != [] && (t[0] == 0x2d || t[0] == 0x2b) then t[1..] else t;
      assert body != [] ==> body[|body| - 1] == c;
    }
  }

  /** The index of the first line readInt accepts. */
  function FirstAccepted(lines: seq<Bytes>, lo: int, hi: int): (r: Option<nat>)
    ensures r.Some? ==> r.value < |lines| && Accept(lines[r.value], lo, hi).Some?
    ensures r.Some? ==> forall j :: 0 <= j < r.value ==> Accept(lines[j], lo, hi).None?
    ensures r.None? ==> forall j :: 0 <= j < |lines| ==> Accept(lines[j], lo, hi).None?
  {
    if lines == [] then None
    else if Accept(lines[0], lo, hi).Some? then Some(0)
    else match FirstAccepted(lines[1..], lo, hi)
      case None => None
      case Some(k) => Some(k + 1)
  }

  /** The i-th remaining line, or "" once input is exhausted (what getline leaves in `s` at EOF). */
  function Line(lines: seq<Bytes>, i: nat): Bytes
  {
    if i < |lines| then lines[i] else []
  }

  function Drop(lines: seq<Bytes>, n: nat): seq<Bytes>
  {
    if n <= |lines| then lines[n..] else []
  }

  /** Standard input as the sequence of lines not read yet. */
  class Console {
    var lines: seq<Bytes>

    constructor (input: seq<Bytes>)
      ensures lines == input
    {
      lines := input;
    }

    /** readLine: the next line, or "" at end of input. */
    method ReadLine() returns (s: Bytes)
      modifies this
      ensures s == Line(old(lines), 0)
      ensures lines == Drop(old(lines), 1)
    {
      if lines == [] {
        s := [];
      } else {
        s := lines[0];
        lines := lines[1..];
      }
    }

    /**
     * readInt: prompts until a line is accepted; at end of input it returns 0.
     * The result is therefore 0 or a value in [lo, hi].
     */
    method ReadInt(lo: int, hi: int) returns (v: int)
      modifies this
      ensures v == 0 || lo <= v <= hi
      ensures FirstAccepted(old(lines), lo, hi).None? ==> v == 0 && lines == []
      ensures FirstAccepted(old(lines), lo, hi).Some? ==>
                var k := FirstAccepted(old(lines), lo, hi).value;
                Accept(old(lines)[k], lo, hi) == Some(v) && lines == old(lines)[k + 1..]
    {
      ghost var d := 0;
      while lines != []
        invariant 0 <= d <= |old(lines)| && lines == old(lines)[d..]
        invariant forall j :: 0 <= j < d ==> Accept(old(lines)[j], lo, hi).None?
        decreases |lines|
      {
        var s := lines[0];
        lines := lines[1..];
        d := d + 1;
        var a := Accept(s, lo, hi);
        if a.Some? {
          v := a.value;
          return;
        }
      }
      v := 0;
    }
  }

  /** In the default range (INT32_MIN..INT32_MAX) a decimal line is read back as its value. */
  lemma ReadIntOfDecimal(v: int)
    requires INT32_MIN <= v <= INT32_MAX
    ensures FirstAccepted([Decimal(v)], INT32_MIN, INT32_MAX) == Some(0)
    ensures Accept(Decimal(v), INT32_MIN, INT32_MAX) == Some(v)
  {
    DecimalRoundTrip(v);
  }

  // ---------------- Player totals ----------------

  datatype Total = Total(pid: u32, goals: int, assists: int, saves: int, yellow: int, red: int)

  function AddStat(t: Total, s: Stat): Total
  {
    t.(goals := t.goals + s.goals, assists := t.assists + s.assists, saves := t.saves + s.saves,
       yellow := t.yellow + s.yellow, red := t.red + s.red)
  }

  /** The sums over the stats whose playerId is `pid`. */
  function Tally(pid: u32, stats: seq<Stat>): Total
  {
    if stats == [] then Total(pid, 0, 0, 0, 0, 0)
    else
      var t := Tally(pid, stats[..|stats| - 1]);
      var s := stats[|stats| - 1];
      if s.playerId == pid then AddStat(t, s) else t
  }

  function Combine(a: Total, b: Total): Total
  {
    a.(goals := a.goals + b.goals, assists := a.assists + b.assists, saves := a.saves + b.saves,
       yellow := a.yellow + b.yellow, red := a.red + b.red)
  }

  /** Totals do not depend on how the stat file is split: a tally over a + b combines the two tallies. */
  lemma {:induction false} TallyConcat(pid: u32, a: seq<Stat>, b: seq<Stat>)
    ensures Tally(pid, a + b) == Combine(Tally(pid, a), Tally(pid, b))
  {
    if b != [] {
      assert (a + b)[..|a + b| - 1] == a + b[..|b| - 1];
      assert (a + b)[|a + b| - 1] == b[|b| - 1];
      TallyConcat(pid, a, b[..|b| - 1]);
    } else {
      assert a + b == a;
    }
  }

  /** With bounded stats, every total is between 0 and the per-record bound times the number of records. */
  lemma {:induction false} TallyBounds(pid: u32, stats: seq<Stat>)
    requires forall i :: 0 <= i < |stats| ==> StatBounded(stats[i])
    ensures var t := Tally(pid, stats);
            t.pid == pid &&
            0 <= t.goals <= 100 * |stats| && 0 <= t.assists <= 100 * |stats| && 0 <= t.saves <= 100 * |stats| &&
            0 <= t.yellow <= 10 * |stats| && 0 <= t.red <= 10 * |stats|
  {
    if stats != [] {
      TallyBounds(pid, stats[..|stats| - 1]);
    }
  }

  /** One entry per active player, in table order. */
  function TotalsOf(players: seq<Player>, stats: seq<Stat>): seq<Total>
  {
    if players == [] then []
    else
      var rest := TotalsOf(players[..|players| - 1], stats);
      var p := players[|players| - 1];
      if p.active then rest + [Tally(p.id, stats)] else rest
  }

  /** Every active player's tally is an entry, and every entry is the tally of an active player. */
  lemma {:induction false} TotalsOfEntries(players: seq<Player>, stats: seq<Stat>)
    ensures forall t :: t in TotalsOf(players, stats) ==>
              exists i :: 0 <= i < |players| && players[i].active && t == Tally(players[i].id, stats)
    ensures forall i :: 0 <= i < |players| && players[i].active ==> Tally(players[i].id, stats) in TotalsOf(players, stats)
  {
    if players != [] {
      var init := players[..|players| - 1];
      TotalsOfEntries(init, stats);
      forall t | t in TotalsOf(players, stats)
        ensures exists i :: 0 <= i < |players| && players[i].active && t == Tally(players[i].id, stats)
      {
        if t in TotalsOf(init, stats) {
          var i :| 0 <= i < |init| && init[i].active && t == Tally(init[i].id, stats);
          assert players[i] == init[i];
        } else {
          assert t == Tally(players[|players| - 1].id, stats);
        }
      }
      forall i | 0 <= i < |players| && players[i].active
        ensures Tally(players[i].id, stats) in TotalsOf(players, stats)
      {
        if i < |players| - 1 {
          assert players[i] == init[i];
        }
      }
    }
  }

  predicate SortedByGoals(ts: seq<Total>)
  {
    forall i, j :: 0 <= i < j < |ts| ==> ts[i].goals >= ts[j].goals
  }

  function InsertByGoals(t: Total, ts: seq<Total>): seq<Total>
  {
    if ts == [] || t.goals >= ts[0].goals then [t] + ts else [ts[0]] + InsertByGoals(t, ts[1..])
  }

  /** A sort by goals, descending (the order among equal goals is not specified by std::sort). */
  function SortByGoals(ts: seq<Total>): seq<Total>
  {
    if ts == [] then [] else InsertByGoals(ts[0], SortByGoals(ts[1..]))
  }

  predicate AllAtMost(ts: seq<Total>, g: int)
  {
    forall i :: 0 <= i < |ts| ==> ts[i].goals <= g
  }

  lemma {:induction false} InsertAtMost(t: Total, ts: seq<Total>, g: int)
    requires AllAtMost(ts, g) && t.goals <= g
    ensures AllAtMost(InsertByGoals(t, ts), g)
  {
    if !(ts == [] || t.goals >= ts[0].goals) {
      InsertAtMost(t, ts[1..], g);
    }
  }

  lemma SortedCons(x: Total, rest: seq<Total>)
    requires SortedByGoals(rest) && AllAtMost(rest, x.goals)
    ensures SortedByGoals([x] + rest)
  {
    var r := [x] + rest;
    forall i, j | 0 <= i < j < |r|
      ensures r[i].goals >= r[j].goals
    {
      assert r[j] == rest[j - 1];
      if i > 0 {
        assert r[i] == rest[i - 1];
      }
    }
  }

  lemma {:induction false} InsertByGoalsCorrect(t: Total, ts: seq<Total>)
    requires SortedByGoals(ts)
    ensures multiset(InsertByGoals(t, ts)) == multiset(ts) + multiset{t}
    ensures SortedByGoals(InsertByGoals(t, ts))
  {
    if ts == [] || t.goals >= ts[0].goals {
      assert multiset([t] + ts) == multiset{t} + multiset(ts);
      assert AllAtMost(ts, t.goals);
      SortedCons(t, ts);
    } else {
      var tail := ts[1..];
      InsertByGoalsCorrect(t, tail);
      assert ts == [ts[0]] + tail;
      assert multiset([ts[0]] + InsertByGoals(t, tail)) == multiset{ts[0]} + multiset(InsertByGoals(t, tail));
      assert AllAtMost(tail, ts[0].goals);
      InsertAtMost(t, tail, ts[0].goals);
      SortedCons(ts[0], InsertByGoals(t, tail));
    }
  }

  lemma {:induction false} SortByGoalsCorrect(ts: seq<Total>)
    ensures multiset(SortByGoals(ts)) == multiset(ts)
    ensures SortedByGoals(SortByGoals(ts))
  {
    if ts != [] {
      SortByGoalsCorrect(ts[1..]);
      InsertByGoalsCorrect(ts[0], SortByGoals(ts[1..]));
      assert ts == [ts[0]] + ts[1..];
      assert multiset(ts) == multiset{ts[0]} + multiset(ts[1..]);
    }
  }

  /**
   * LS_ViewPlayerTotalsInteractive without the printing: for each active player
   * the sums over that player's stats, then ordered by goals, descending.
   */
  method PlayerTotals(players: seq<Player>, stats: seq<Stat>) returns (totals: seq<Total>)
    ensures multiset(totals) == multiset(TotalsOf(players, stats))
    ensures SortedByGoals(totals)
  {
    var acc: seq<Total> := [];
    var i := 0;
    while i < |players|
      invariant 0 <= i <= |players|
      invariant acc == TotalsOf(players[..i], stats)
    {
      assert players[..i + 1][..i] == players[..i];
      var p := players[i];
      if p.active {
        var t := Total(p.id, 0, 0, 0, 0, 0);
        var j := 0;
        while j < |stats|
          invariant 0 <= j <= |stats|
          invariant t == Tally(p.id, stats[..j])
        {
          assert stats[..j + 1][..j] == stats[..j];
          if stats[j].playerId == p.id {
            t := AddStat(t, stats[j]);
          }
          j := j + 1;
        }
        assert stats[..j] == stats;
        acc := acc + [t];
      }
      i := i + 1;
    }
    assert players[..i] == players;
    SortByGoalsCorrect(acc);
    totals := SortByGoals(acc);
  }

  // ---------------- The record store and session ----------------

  predicate CanLogIn(u: User, uname: Bytes, h: bv64)
  {
    u.active && uname == u.username && u.passHash == h
  }

  function LoginMatch(uname: Bytes, h: bv64): User -> bool
  {
    (u: User) => CanLogIn(u, uname, h)
  }

  /** A name the registration loop accepts: 3..31 bytes, equal to no active user's name. */
  predicate NameAcceptable(uname: Bytes, users: seq<User>)
  {
    3 <= |uname| <= 31 && forall i :: 0 <= i < |users| ==> !(users[i].active && users[i].username == uname)
  }

  function AcceptableName(users: seq<User>): Bytes -> bool
  {
    (s: Bytes) => NameAcceptable(s, users)
  }

  /** The find_if predicate of edit and remove: `(int)x.id == id && x.active`. */
  function ActivePlayerWithId(id: int): Player -> bool
  {
    (p: Player) => Signed(p.id) == id && p.active
  }

  /** The find_if predicate of result and stat recording: `(int)x.id == id`. */
  function GameWithId(id: int): Game -> bool
  {
    (g: Game) => Signed(g.id) == id
  }

  function Edited(p: Player, name: Bytes, position: Bytes, phone: Bytes, email: Bytes): Player
  {
    p.(name := if name == [] then p.name else CopyTo(NAME_SIZE, name),
       position := if position == [] then p.position else CopyTo(POSITION_SIZE, position),
       phone := if phone == [] then p.phone else CopyTo(PHONE_SIZE, phone),
       email := if email == [] then p.email else CopyTo(EMAIL_SIZE, email))
  }

  lemma WrapSigned(x: u32)
    ensures Wrap(Signed(x)) == x
  {
  }

  lemma DropSteps(lines: seq<Bytes>, k: nat)
    requires k < |lines|
    ensures Line(lines[k + 1..], 0) == Line(lines, k + 1)
    ensures Line(Drop(lines[k + 1..], 1), 0) == Line(lines, k + 2)
    ensures Drop(Drop(lines[k + 1..], 1), 1) == Drop(lines, k + 3)
  {
  }

  /** The inner loop of registration: does an active user already have this name? */
  method IsNameAcceptable(uname: Bytes, users: seq<User>) returns (ok: bool)
    ensures ok == NameAcceptable(uname, users)
  {
    if |uname| < 3 || |uname| > 31 {
      return false;
    }
    var i := 0;
    while i < |users|
      invariant 0 <= i <= |users|
      invariant forall j :: 0 <= j < i ==> !(users[j].active && users[j].username == uname)
    {
      if users[i].active && uname == users[i].username {
        return false;
      }
      i := i + 1;
    }
    ok := true;
  }

  /**
   * The name loop of registration: reads lines until one is acceptable. At end
   * of input (where the source keeps reading "" forever) it gives up with None.
   */
  method ReadAcceptableName(con: Console, users: seq<User>) returns (name: Option<Bytes>)
    modifies con
    ensures var k := FindIf(old(con.lines), AcceptableName(users));
            (k.None? ==> name.None? && con.lines == []) &&
            (k.Some? ==> name == Some(old(con.lines)[k.value]) && con.lines == old(con.lines)[k.value + 1..])
  {
    ghost var d := 0;
    while con.lines != []
      invariant 0 <= d <= |old(con.lines)| && con.lines == old(con.lines)[d..]
      invariant forall j :: 0 <= j < d ==> !NameAcceptable(old(con.lines)[j], users)
      decreases |con.lines|
    {
      var uname := con.ReadLine();
      var ok := IsNameAcceptable(uname, users);
      assert uname == old(con.lines)[d];
      d := d + 1;
      if ok {
        assert FindIf(old(con.lines), AcceptableName(users)) == Some(d - 1);
        return Some(uname);
      }
    }
    assert FindIf(old(con.lines), AcceptableName(users)).None?;
    name := None;
  }

  /** Whether the `active` copy of the roster built by stat recording is non-empty. */
  method HasActivePlayer(players: seq<Player>) returns (b: bool)
    ensures b <==> exists i :: 0 <= i < |players| && players[i].active
  {
    var i := 0;
    while i < |players|
      invariant 0 <= i <= |players|
      invariant forall j :: 0 <= j < i ==> !players[j].active
    {
      if players[i].active {
        return true;
      }
      i := i + 1;
    }
    b := false;
  }

  lemma LiteralsFit()
    ensures Fits(ADMIN, USERNAME_SIZE) && Fits(ADMIN, ROLE_SIZE) && Fits(MEMBER, ROLE_SIZE)
  {
  }

  lemma AppendUserFits(us: seq<User>, u: User)
    requires forall i :: 0 <= i < |us| ==> UserFits(us[i])
    requires UserFits(u)
    ensures forall i :: 0 <= i < |us| + 1 ==> UserFits((us + [u])[i])
  {
  }

  /** The game and the player found by their typed ids carry those ids, wrapped to 32 bits. */
  lemma FoundIdsMatch(games: seq<Game>, players: seq<Player>, gid: int, pid: int)
    requires FindIf(games, GameWithId(gid)).Some? && FindIf(players, ActivePlayerWithId(pid)).Some?
    ensures exists i :: 0 <= i < |games| && games[i].id == Wrap(gid)
    ensures exists i :: 0 <= i < |players| && players[i].active && players[i].id == Wrap(pid)
    ensures Signed(Wrap(gid)) == gid && Signed(Wrap(pid)) == pid
  {
    var g := FindIf(games, GameWithId(gid)).value;
    var p := FindIf(players, ActivePlayerWithId(pid)).value;
    assert GameWithId(gid)(games[g]);
    assert ActivePlayerWithId(pid)(players[p]);
    WrapSigned(games[g].id);
    WrapSigned(players[p].id);
    SignedWrapRoundTrip(gid);
    SignedWrapRoundTrip(pid);
  }

  lemma AppendStatBounded(ss: seq<Stat>, s: Stat)
    requires forall i :: 0 <= i < |ss| ==> StatBounded(ss[i])
    requires StatBounded(s)
    ensures forall i :: 0 <= i < |ss| + 1 ==> StatBounded((ss + [s])[i])
  {
  }

  datatype RegisterOutcome = Registered(id: u32) | PasswordMismatch | InputExhausted

  /** What registration leaves behind: its outcome, the user table and the input not read. */
  datatype Registration = Registration(outcome: RegisterOutcome, users: seq<User>, rest: seq<Bytes>)

  /**
   * Registration over the input lines: the first acceptable name is followed by
   * the password and its confirmation; on a match one active member with the
   * next id is appended. No acceptable name before the end of input: nothing changes.
   */
  function Registering(lines: seq<Bytes>, users: seq<User>): Registration
  {
    match FindIf(lines, AcceptableName(users))
    case None => Registration(InputExhausted, users, [])
    case Some(k) =>
      if Line(lines, k + 1) != Line(lines, k + 2) then Registration(PasswordMismatch, users, Drop(lines, k + 3))
      else
        var id := NextFree(UserIds(users));
        Registration(Registered(id),
                     users + [User(id, CopyTo(USERNAME_SIZE, lines[k]), FnvHash(Line(lines, k + 1)), MEMBER, true)],
                     Drop(lines, k + 3))
  }

  /** Registration with the name on line k and a confirmed password. */
  lemma RegisteringAccepted(lines: seq<Bytes>, users: seq<User>, k: nat)
    requires FindIf(lines, AcceptableName(users)) == Some(k)
    requires Line(lines, k + 1) == Line(lines, k + 2)
    ensures var id := NextFree(UserIds(users));
            Registering(lines, users) ==
              Registration(Registered(id),
                           users + [User(id, CopyTo(USERNAME_SIZE, lines[k]), FnvHash(Line(lines, k + 1)), MEMBER, true)],
                           Drop(lines, k + 3))
  {
  }

  /**
   * A registered name was free (3 to 31 bytes, held by no active user) and was
   * the first such line; the table grows by exactly that member, and a name
   * without NUL bytes then logs in with the password typed.
   */
  lemma RegisteredCanLogIn(lines: seq<Bytes>, users: seq<User>)
    requires Registering(lines, users).outcome.Registered?
    ensures var k := FindIf(lines, AcceptableName(users));
            k.Some? && NameAcceptable(lines[k.value], users) &&
            (forall j :: 0 <= j < k.value ==> !NameAcceptable(lines[j], users)) &&
            Line(lines, k.value + 1) == Line(lines, k.value + 2)
    ensures var r := Registering(lines, users);
            |r.users| == |users| + 1 && r.users[..|users|] == users &&
            r.users[|users|].id == r.outcome.id && r.users[|users|].role == MEMBER
    ensures var k := FindIf(lines, AcceptableName(users)).value;
            (forall i :: 0 <= i < |lines[k]| ==> lines[k][i] != 0) ==>
              CanLogIn(Registering(lines, users).users[|users|], lines[k], FnvHash(Line(lines, k + 1)))
  {
    var k := FindIf(lines, AcceptableName(users)).value;
    assert AcceptableName(users)(lines[k]);
    forall j | 0 <= j < k
      ensures !NameAcceptable(lines[j], users)
    {
      assert !AcceptableName(users)(lines[j]);
    }
    if forall i :: 0 <= i < |lines[k]| ==> lines[k][i] != 0 {
      CStringOfNulFree(lines[k]);
    }
  }
  datatype StatOutcome = Recorded(id: u32) | NoGames | GameNotFound | NoActivePlayers | PlayerNotFound

  class TeamStore {
    var players: seq<Player>
    var games: seq<Game>
    var stats: seq<Stat>
    var users: seq<User>
    /** g_isAuthed */
    var isAuthed: bool
    /** the C string in g_currentUser */
    var currentUser: Bytes

    /** Every stored string fits its array and every stat is within the prompts' ranges. */
    ghost predicate Valid()
      reads this
    {
      (forall i :: 0 <= i < |players| ==> PlayerFits(players[i]))
      && (forall i :: 0 <= i < |games| ==> GameFits(games[i]))
      && (forall i :: 0 <= i < |stats| ==> StatBounded(stats[i]))
      && (forall i :: 0 <= i < |users| ==> UserFits(users[i]))
      && Fits(currentUser, USERNAME_SIZE)
    }

    /** The tables as the files hold them, with no session; the files are ones this program wrote, so they keep Valid. */
    constructor (players0: seq<Player>, games0: seq<Game>, stats0: seq<Stat>, users0: seq<User>)
      requires forall i :: 0 <= i < |players0| ==> PlayerFits(players0[i])
      requires forall i :: 0 <= i < |games0| ==> GameFits(games0[i])
      requires forall i :: 0 <= i < |stats0| ==> StatBounded(stats0[i])
      requires forall i :: 0 <= i < |users0| ==> UserFits(users0[i])
      ensures Valid()
      ensures players == players0 && games == games0 && stats == stats0 && users == users0
      ensures !isAuthed && currentUser == []
    {
      players := players0;
      games := games0;
      stats := stats0;
      users := users0;
      isAuthed := false;
      currentUser := [];
    }

    /** LS_Init: seeds the single user admin/admin only when the user table is empty. */
    method Init()
      requires Valid()
      modifies this
      ensures Valid()
      ensures old(users) == [] ==> users == [User(1, ADMIN, FnvHash(ADMIN), ADMIN, true)]
      ensures old(users) != [] ==> users == old(users)
      ensures players == old(players) && games == old(games) && stats == old(stats)
      ensures isAuthed == old(isAuthed) && currentUser == old(currentUser)
    {
      if users == [] {
        var h := Fnv1a64(ADMIN);
        LiteralsFit();
        users := [User(1, ADMIN, h, ADMIN, true)];
      }
    }

    /**
     * LS_AuthLoginInteractive with the two typed lines as parameters: the first
     * active user with that name and FNV-1a hash opens the session.
     */
    method Login(uname: Bytes, pwd: Bytes) returns (ok: bool)
      requires Valid()
      modifies this
      ensures Valid()
      ensures ok <==> exists i :: 0 <= i < |users| && CanLogIn(users[i], uname, FnvHash(pwd))
      ensures ok ==> isAuthed && currentUser == uname
      ensures ok ==> var k := FindIf(users, LoginMatch(uname, FnvHash(pwd)));
                     k.Some? && currentUser == users[k.value].username
      ensures !ok ==> isAuthed == old(isAuthed) && currentUser == old(currentUser)
      ensures players == old(players) && games == old(games) && stats == old(stats) && users == old(users)
    {
      var h := Fnv1a64(pwd);
      var i := 0;
      while i < |users|
        invariant 0 <= i <= |users|
        invariant forall j :: 0 <= j < i ==> !CanLogIn(users[j], uname, h)
      {
        var u := users[i];
        if u.active && uname == u.username && u.passHash == h {
          isAuthed := true;
          CopyToFitting(USERNAME_SIZE, u.username);
          currentUser := CopyTo(USERNAME_SIZE, u.username);
          assert FindIf(users, LoginMatch(uname, h)) == Some(i);
          return true;
        }
        i := i + 1;
      }
      ok := false;
    }

    /** LS_AuthLogout: clears the session. */
    method Logout()
      modifies this
      ensures !isAuthed && currentUser == []
      ensures CurrentUsername().None?
      ensures players == old(players) && games == old(games) && stats == old(stats) && users == old(users)
    {
      isAuthed := false;
      currentUser := [];
    }

    /** LS_CurrentUsername: the user's name, or null when the name buffer is empty. */
    function CurrentUsername(): (r: Option<Bytes>)
      reads this
      ensures r.Some? <==> currentUser != []
      ensures r.Some? ==> r.value == currentUser
    {
      if currentUser != [] then Some(currentUser) else None
    }

    /** LS_IsAuthenticated: whether a login succeeded since the last logout. */
    function IsAuthenticated(): (r: bool)
      reads this
      ensures r == isAuthed
    {
      isAuthed
    }

    /**
     * LS_AuthRegisterInteractive: asks for names until one is acceptable, then
     * for the password twice. On a match it appends one member with the next id.
     * At end of input during the name loop the source asks forever; the model
     * stops there with InputExhausted and changes nothing.
     */
    method Register(con: Console) returns (outcome: RegisterOutcome)
      requires Valid()
      modifies this, con
      ensures Valid()
      ensures var r := Registering(old(con.lines), old(users));
              outcome == r.outcome && users == r.users && con.lines == r.rest
      ensures players == old(players) && games == old(games) && stats == old(stats)
      ensures isAuthed == old(isAuthed) && currentUser == old(currentUser)
    {
      ghost var lines0, users0 := con.lines, users;
      var name := ReadAcceptableName(con, users);
      if name.None? {
        assert Registering(lines0, users0) == Registration(InputExhausted, users0, []);
        return InputExhausted;
      }
      ghost var k := FindIf(lines0, AcceptableName(users0)).value;
      assert name.value == lines0[k] && con.lines == lines0[k + 1..];
      var pwd1 := con.ReadLine();
      var pwd2 := con.ReadLine();
      DropSteps(lines0, k);
      assert pwd1 == Line(lines0, k + 1) && pwd2 == Line(lines0, k + 2);
      assert con.lines == Drop(lines0, k + 3);
      if pwd1 != pwd2 {
        assert Registering(lines0, users0) == Registration(PasswordMismatch, users0, con.lines);
        return PasswordMismatch;
      }
      var id := AppendMember(name.value, pwd1);
      outcome := Registered(id);
      RegisteringAccepted(lines0, users0, k);
    }

    /** The user registration appends: an active member with the next id, the stored name and the password's hash. */
    method AppendMember(name: Bytes, pwd: Bytes) returns (id: u32)
      requires Valid()
      modifies this
      ensures Valid()
      ensures id == NextFree(UserIds(old(users)))
      ensures users == old(users) + [User(id, CopyTo(USERNAME_SIZE, name), FnvHash(pwd), MEMBER, true)]
      ensures players == old(players) && games == old(games) && stats == old(stats)
      ensures isAuthed == old(isAuthed) && currentUser == old(currentUser)
    {
      id := NextId(UserIds(users));
      var h := Fnv1a64(pwd);
      var u := User(id, CopyTo(USERNAME_SIZE, name), h, MEMBER, true);
      LiteralsFit();
      AppendUserFits(users, u);
      users := users + [u];
    }

    /** LS_AddPlayerInteractive: appends an active player with the next id. */
    method AddPlayer(name: Bytes, position: Bytes, phone: Bytes, email: Bytes) returns (id: u32)
      requires Valid()
      modifies this
      ensures Valid()
      ensures id == NextFree(PlayerIds(old(players)))
      ensures players == old(players) + [Player(id, CopyTo(NAME_SIZE, name), CopyTo(POSITION_SIZE, position),
                                                 CopyTo(PHONE_SIZE, phone), CopyTo(EMAIL_SIZE, email), true)]
      ensures games == old(games) && stats == old(stats) && users == old(users)
      ensures isAuthed == old(isAuthed) && currentUser == old(currentUser)
    {
      id := NextId(PlayerIds(players));
      players := players + [Player(id, CopyTo(NAME_SIZE, name), CopyTo(POSITION_SIZE, position),
                                   CopyTo(PHONE_SIZE, phone), CopyTo(EMAIL_SIZE, email), true)];
    }

    /**
     * LS_EditPlayerInteractive: on the first active player whose id reads as `id`,
     * every field whose input line is non-empty is replaced; nothing else changes.
     */
    method EditPlayer(id: int, name: Bytes, position: Bytes, phone: Bytes, email: Bytes) returns (found: bool)
      requires Valid()
      modifies this
      ensures Valid()
      ensures var k := FindIf(old(players), ActivePlayerWithId(id));
              found == k.Some? &&
              (k.None? ==> players == old(players)) &&
              (k.Some? ==> players == old(players)[k.value := Edited(old(players)[k.value], name, position, phone, email)])
      ensures games == old(games) && stats == old(stats) && users == old(users)
      ensures isAuthed == old(isAuthed) && currentUser == old(currentUser)
    {
      var k := FindIf(players, ActivePlayerWithId(id));
      if k.None? {
        return false;
      }
      players := players[k.value := Edited(players[k.value], name, position, phone, email)];
      found := true;
    }

    /** LS_RemovePlayerInteractive: soft delete of the first active player whose id reads as `id`. */
    method RemovePlayer(id: int) returns (found: bool)
      requires Valid()
      modifies this
      ensures Valid()
      ensures var k := FindIf(old(players), ActivePlayerWithId(id));
              found == k.Some? &&
              (k.None? ==> players == old(players)) &&
              (k.Some? ==> players == old(players)[k.value := old(players)[k.value].(active := false)])
      ensures games == old(games) && stats == old(stats) && users == old(users)
      ensures isAuthed == old(isAuthed) && currentUser == old(currentUser)
    {
      var k := FindIf(players, ActivePlayerWithId(id));
      if k.None? {
        return false;
      }
      players := players[k.value := players[k.value].(active := false)];
      found := true;
    }

    /** LS_AddGameInteractive: appends an unplayed game with the next id and an empty result. */
    method AddGame(date: Bytes, time: Bytes, opponent: Bytes, location: Bytes) returns (id: u32)
      requires Valid()
      modifies this
      ensures Valid()
      ensures id == NextFree(GameIds(old(games)))
      ensures games == old(games) + [Game(id, CopyTo(DATE_SIZE, date), CopyTo(TIME_SIZE, time),
                                          CopyTo(OPPONENT_SIZE, opponent), CopyTo(LOCATION_SIZE, location), false, [])]
      ensures players == old(players) && stats == old(stats) && users == old(users)
      ensures isAuthed == old(isAuthed) && currentUser == old(currentUser)
    {
      id := NextId(GameIds(games));
      games := games + [Game(id, CopyTo(DATE_SIZE, date), CopyTo(TIME_SIZE, time),
                             CopyTo(OPPONENT_SIZE, opponent), CopyTo(LOCATION_SIZE, location), false, [])];
    }

    /** LS_RecordResultInteractive: the first game whose id reads as `id` gets the result and is marked played. */
    method RecordResult(id: int, result: Bytes) returns (found: bool)
      requires Valid()
      modifies this
      ensures Valid()
      ensures var k := FindIf(old(games), GameWithId(id));
              found == k.Some? &&
              (k.None? ==> games == old(games)) &&
              (k.Some? ==> games == old(games)[k.value := old(games)[k.value].(result := CopyTo(RESULT_SIZE, result), played := true)])
      ensures players == old(players) && stats == old(stats) && users == old(users)
      ensures isAuthed == old(isAuthed) && currentUser == old(currentUser)
    {
      var k := FindIf(games, GameWithId(id));
      if k.None? {
        return false;
      }
      games := games[k.value := games[k.value].(result := CopyTo(RESULT_SIZE, result), played := true)];
      found := true;
    }

    /**
     * LS_RecordStatsInteractive: needs a game, a game whose id reads as `gid`, an
     * active player, and an active player whose id reads as `pid`; then appends
     * one stat with the next id. The five counts are what readInt(0, 100) and
     * readInt(0, 10) return.
     */
    method RecordStats(gid: int, pid: int, goals: int, assists: int, saves: int, yellow: int, red: int)
      returns (outcome: StatOutcome)
      requires Valid()
      requires 0 <= goals <= 100 && 0 <= assists <= 100 && 0 <= saves <= 100
      requires 0 <= yellow <= 10 && 0 <= red <= 10
      modifies this
      ensures Valid()
      ensures old(games) == [] ==> outcome == NoGames
      ensures old(games) != [] && FindIf(old(games), GameWithId(gid)).None? ==> outcome == GameNotFound
      ensures FindIf(old(games), GameWithId(gid)).Some? && (forall i :: 0 <= i < |old(players)| ==> !old(players)[i].active)
              ==> outcome == NoActivePlayers
      ensures (FindIf(old(games), GameWithId(gid)).Some? && (exists i :: 0 <= i < |old(players)| && old(players)[i].active)
               && FindIf(old(players), ActivePlayerWithId(pid)).None?) ==> outcome == PlayerNotFound
      ensures !outcome.Recorded? ==> stats == old(stats)
      ensures FindIf(old(games), GameWithId(gid)).Some? && FindIf(old(players), ActivePlayerWithId(pid)).Some? ==>
                outcome.Recorded?
      ensures outcome.Recorded? ==>
                FindIf(old(games), GameWithId(gid)).Some? && FindIf(old(players), ActivePlayerWithId(pid)).Some? &&
                outcome.id == NextFree(StatIds(old(stats))) &&
                stats == old(stats) + [Stat(outcome.id, Wrap(gid), Wrap(pid), goals, assists, saves, yellow, red)]
      ensures outcome.Recorded? ==> Signed(stats[|stats| - 1].gameId) == gid && Signed(stats[|stats| - 1].playerId) == pid
      ensures outcome.Recorded? ==>
                (exists i :: 0 <= i < |old(games)| && old(games)[i].id == Wrap(gid)) &&
                (exists i :: 0 <= i < |old(players)| && old(players)[i].active && old(players)[i].id == Wrap(pid))
      ensures players == old(players) && games == old(games) && users == old(users)
      ensures isAuthed == old(isAuthed) && currentUser == old(currentUser)
    {
      if games == [] {
        return NoGames;
      }
      var g := FindIf(games, GameWithId(gid));
      if g.None? {
        return GameNotFound;
      }
      var anyActive := HasActivePlayer(players);
      if !anyActive {
        return NoActivePlayers;
      }
      var p := FindIf(players, ActivePlayerWithId(pid));
      if p.None? {
        return PlayerNotFound;
      }
      FoundIdsMatch(games, players, gid, pid);
      var id := NextId(StatIds(stats));
      var st := Stat(id, Wrap(gid), Wrap(pid), goals, assists, saves, yellow, red);
      AppendStatBounded(stats, st);
      stats := stats + [st];
      assert stats[|stats| - 1] == st;
      outcome := Recorded(id);
    }

    /** LS_ViewPlayerTotalsInteractive: the totals table, before printing. */
    method ViewPlayerTotals() returns (totals: seq<Total>)
      ensures multiset(totals) == multiset(TotalsOf(players, stats))
      ensures SortedByGoals(totals)
    {
      totals := PlayerTotals(players, stats);
    }
  }
}
