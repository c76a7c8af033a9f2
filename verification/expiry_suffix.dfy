/** The time-to-live overlay of the string disk cache (`DiskCacheHelper`):
    on write a value is stamped with the text
    `@createTime{T}expireMills{E}@`; on read the stamp is located with the
    regular expression
    `@createTime\{(\d{1,})\}expireMills\{((-)?\d{1,})\}@`, the timestamps
    of the LAST match are parsed, the value is cut at the FIRST occurrence of
    `@createTime`, and the entry is either fresh or expired. */
module ExpirySuffix {
  import opened Common
  import opened Decimal

  /** The text `indexOf` looks for when cutting the value. */
  const CreateTag: string := "@createTime"
  /** The three literal pieces of the stamp. */
  const Open: string := "@createTime{"
  const Middle: string := "}expireMills{"
  const Close: string := "}@"

  /** `CACHE_NEVER_EXPIRE`: an expiry of -1 means the entry never expires. */
  const NeverExpire: int := -1

  /** `p` occurs in `s` at position `i`. */
  predicate HasAt(s: string, i: int, p: string) {
    0 <= i && i + |p| <= |s| && s[i..i + |p|] == p
  }

  /** The stamp `TAG_CACHE` becomes once both placeholders are replaced by
      the decimal text of the two numbers. */
  function Suffix(createTime: int, expireMills: int): string {
    Open + ToDecimal(createTime) + Middle + ToDecimal(expireMills) + Close
  }

  /** What a write stores: the value followed by its stamp. */
  function Stamp(value: string, createTime: int, expireMills: int): (content: string)
    ensures |content| > |value| && content[..|value|] == value
    ensures HasAt(content, |value|, CreateTag)
  {
    var sfx := Suffix(createTime, expireMills);
    SuffixPieces(createTime, expireMills);
    OpenStartsWithTag(sfx, 0);
    HasAtShift(value, sfx, 0, CreateTag);
    assert (value + sfx)[..|value|] == value;
    value + sfx
  }

  // ---------------------------------------------------------------------
  // String search: `String.indexOf`
  // ---------------------------------------------------------------------

  function IndexFrom(s: string, needle: string, i: nat): (r: int)
    requires i <= |s|
    ensures r == -1 || (i <= r && HasAt(s, r, needle))
    ensures r == -1 ==> forall j :: i <= j <= |s| ==> !HasAt(s, j, needle)
    ensures r != -1 ==> forall j :: i <= j < r ==> !HasAt(s, j, needle)
    decreases |s| - i
  {
    if HasAt(s, i, needle) then i
    else if i == |s| then -1
    else IndexFrom(s, needle, i + 1)
  }

  /** `s.indexOf(needle)`: the first position of `needle` in `s`, or -1. */
  function IndexOf(s: string, needle: string): (r: int)
    ensures r == -1 <==> forall j :: 0 <= j <= |s| ==> !HasAt(s, j, needle)
    ensures r != -1 ==> HasAt(s, r, needle)
    ensures r != -1 ==> forall j :: 0 <= j < r ==> !HasAt(s, j, needle)
  {
    IndexFrom(s, needle, 0)
  }

  // ---------------------------------------------------------------------
  // The regular expression and `Matcher.find`
  // ---------------------------------------------------------------------

  /** One match of the stamp pattern: where it starts, where its creation
      time group ends, and where it ends. The two capture groups are the
      texts between the pattern's literals (`Created`, `Expires`). */
  datatype Match = Match(start: nat, createdEnd: nat, end: nat)

  /** The positions of a match fit the literals of the pattern inside `s`. */
  predicate Placed(s: string, m: Match) {
    m.start + |Open| < m.createdEnd && m.createdEnd + |Middle| + |Close| < m.end <= |s|
  }

  /** Group 1: the creation time digits. */
  function Created(s: string, m: Match): string
    requires Placed(s, m)
  {
    s[m.start + |Open|..m.createdEnd]
  }

  /** Group 2: the expiry, an optional '-' and digits. */
  function Expires(s: string, m: Match): string
    requires Placed(s, m)
  {
    s[m.createdEnd + |Middle|..m.end - |Close|]
  }

  /** Length of the run of ASCII digits (`\d`) starting at `i`. */
  function DigitRun(s: string, i: nat): (k: nat)
    requires i <= |s|
    ensures i + k <= |s|
    decreases |s| - i
  {
    if i < |s| && IsDigit(s[i]) then 1 + DigitRun(s, i + 1) else 0
  }

  /** Position `c` moved past an optional '-'. */
  function SkipMinus(s: string, c: nat): (d: nat)
    requires c <= |s|
    ensures c <= d <= |s|
  {
    if c < |s| && s[c] == '-' then c + 1 else c
  }

  /** Where the rest of a match ends, if the rest matches from `b`:
      `}expireMills{`, an optional '-', digits, `}@`. */
  function TailAt(s: string, b: nat): (end: Option<nat>)
    requires b <= |s|
    ensures end.Some? ==> b + |Middle| + |Close| < end.value <= |s|
  {
    if !HasAt(s, b, Middle) then None
    else
      var d := SkipMinus(s, b + |Middle|);
      var n := DigitRun(s, d);
      var e := d + n;
      if n == 0 || !HasAt(s, e, Close) then None
      else Some(e + |Close|)
  }

  /** The match of the pattern that starts exactly at `i`, if any. Each
      digit group is greedy and is followed by a non-digit literal, so
      backtracking can never produce a different match: the maximal digit
      run is the only candidate, and the optional '-' is taken when present
      (without it the group would have to start at the '-', which is not a
      digit). */
  function MatchAt(s: string, i: nat): (r: Option<Match>)
    requires i <= |s|
    ensures r.Some? ==> r.value.start == i && Placed(s, r.value)
    ensures r.Some? ==> HasAt(s, i, Open)
  {
    if !HasAt(s, i, Open) then None
    else
      var a := i + |Open|;
      var n := DigitRun(s, a);
      if n == 0 then None
      else
        var end := TailAt(s, a + n);
        if end.None? then None else Some(Match(i, a + n, end.value))
  }

  /** A match starts at `i`, ends at `end`, and its groups are the decimal
      texts of the two numbers. */
  predicate StampMatchAt(s: string, i: nat, end: nat, createTime: int, expireMills: int)
    requires i <= |s|
  {
    var m := MatchAt(s, i);
    && m.Some? && m.value.end == end
    && Created(s, m.value) == ToDecimal(createTime) && Expires(s, m.value) == ToDecimal(expireMills)
  }

  /** `Matcher.find` resuming at `p`: the leftmost match starting at or after
      `p`. */
  function FindFrom(s: string, p: nat): (r: Option<Match>)
    requires p <= |s|
    ensures r.Some? ==> p <= r.value.start < |s| && MatchAt(s, r.value.start) == r
    ensures r.Some? ==> forall j :: p <= j < r.value.start ==> MatchAt(s, j).None?
    ensures r.None? ==> forall j :: p <= j < |s| ==> MatchAt(s, j).None?
    decreases |s| - p
  {
    if p == |s| then None
    else match MatchAt(s, p)
      case Some(m) => Some(m)
      case None => FindFrom(s, p + 1)
  }

  /** The two timestamps the read loop ends with. */
  datatype Stamps = Stamps(createTime: int, expireMills: int)

  /** The `while (matcher.find())` loop: every match, left to right and
      without overlap, overwrites the timestamps with its parsed groups; a
      group that `Long.parseLong` rejects throws (None). */
  function Scan(s: string, p: nat, acc: Stamps): (r: Option<Stamps>)
    requires p <= |s|
    ensures FindFrom(s, p).None? ==> r == Some(acc)
    decreases |s| - p
  {
    match FindFrom(s, p)
    case None => Some(acc)
    case Some(m) =>
      match (ParseLong(Created(s, m)), ParseLong(Expires(s, m)))
      case (Some(c), Some(e)) => Scan(s, m.end, Stamps(c, e))
      case _ => None
  }

  // ---------------------------------------------------------------------
  // The read decision
  // ---------------------------------------------------------------------

  /** What a read makes of non-empty stored content: the value, an expired
      entry (which the caller deletes), or an exception swallowed by the
      caller (a timestamp out of the `long` range, or `substring(0, -1)`),
      which yields null and leaves the entry in place. */
  datatype Verdict = Fresh(value: string) | Expired | Faulted

  /** The freshness test of a read: `createTime + expireMills` (a `long`
      sum, so it wraps) lies after `now`, or the entry never expires. */
  predicate StillFresh(st: Stamps, now: int) {
    Wrap64(st.createTime + st.expireMills) > now || st.expireMills == NeverExpire
  }

  /** The read decision for stored content at clock time `now`. The sum
      `createTime + expireMills` is a `long` addition and wraps. */
  function Decode(content: string, now: int): Verdict {
    match Scan(content, 0, Stamps(0, 0))
    case None => Faulted
    case Some(st) =>
      var index := IndexOf(content, CreateTag);
      if StillFresh(st, now) then
        if index < 0 then Faulted else Fresh(content[..index])
      else Expired
  }

  /** A fresh read returns a proper prefix of the content, cut where the
      first tag starts, and the value returned holds no tag. */
  lemma FreshIsCutPrefix(content: string, now: int)
    ensures var r := Decode(content, now);
      r.Fresh? ==>
        && |r.value| < |content| && content[..|r.value|] == r.value
        && HasAt(content, |r.value|, CreateTag)
        && IndexOf(r.value, CreateTag) == -1
  {
    var index := IndexOf(content, CreateTag);
    if Decode(content, now).Fresh? {
      PrefixHasNoTag(content, index);
    }
  }

  /** The cut made at the first tag leaves no tag in the kept prefix. */
  lemma PrefixHasNoTag(content: string, index: int)
    requires 0 <= index && HasAt(content, index, CreateTag)
    requires forall j :: 0 <= j < index ==> !HasAt(content, j, CreateTag)
    ensures IndexOf(content[..index], CreateTag) == -1
  {
    var pre := content[..index];
    forall j | 0 <= j <= |pre|
      ensures !HasAt(pre, j, CreateTag)
    {
      if j + |CreateTag| <= |pre| {
        assert j < index;
        assert !HasAt(content, j, CreateTag);
        assert content[j..j + |CreateTag|] == pre[j..j + |CreateTag|];
      }
    }
  }

  // ---------------------------------------------------------------------
  // Lemmas
  // ---------------------------------------------------------------------

  /** A run of `k` digits at `i` that a non-digit (or the end) closes is
      the run `DigitRun` measures. */
  lemma {:induction false} DigitRunExact(s: string, i: nat, k: nat)
    requires i + k <= |s|
    requires forall j :: i <= j < i + k ==> IsDigit(s[j])
    requires i + k == |s| || !IsDigit(s[i + k])
    ensures DigitRun(s, i) == k
    decreases k
  {
    if k > 0 {
      DigitRunExact(s, i + 1, k - 1);
    }
  }

  /** Every character of the run `DigitRun` measures is a digit. */
  lemma {:induction false} DigitRunDigits(s: string, i: nat)
    requires i <= |s|
    ensures forall j :: i <= j < i + DigitRun(s, i) ==> IsDigit(s[j])
    decreases |s| - i
  {
    if i < |s| && IsDigit(s[i]) {
      DigitRunDigits(s, i + 1);
    }
  }

  /** Soundness of the tail: it is `}expireMills{`, the decimal text of a
      `long` (an optional '-' and digits), and `}@`. */
  lemma TailShape(s: string, b: nat)
    requires b <= |s|
    ensures var t := TailAt(s, b);
      t.Some? ==>
        && HasAt(s, b, Middle)
        && IsDecimalText(s[b + |Middle|..t.value - |Close|])
        && HasAt(s, t.value - |Close|, Close)
  {
    var t := TailAt(s, b);
    if t.Some? {
      var c := b + |Middle|;
      var d := SkipMinus(s, c);
      var e := t.value - |Close|;
      DigitRunDigits(s, d);
      var x := s[c..e];
      assert forall j :: d <= j < e ==> x[j - c] == s[j];
      if d == c {
        assert AllDigits(x);
      } else {
        assert x[0] == '-';
        assert AllDigits(x[1..]) by {
          assert forall j :: 0 <= j < |x| - 1 ==> x[1..][j] == s[d + j];
        }
      }
    }
  }

  /** Soundness of the pattern: a match is `@createTime{`, a non-empty run
      of digits, `}expireMills{`, the decimal text of a `long` (an optional
      '-' and digits), and `}@`. */
  lemma MatchShape(s: string, i: nat)
    requires i <= |s|
    ensures var r := MatchAt(s, i);
      r.Some? ==>
        && HasAt(s, i, Open)
        && |Created(s, r.value)| > 0 && AllDigits(Created(s, r.value))
        && HasAt(s, r.value.createdEnd, Middle)
        && IsDecimalText(Expires(s, r.value))
        && HasAt(s, r.value.end - |Close|, Close)
  {
    var r := MatchAt(s, i);
    if r.Some? {
      MatchParts(s, i);
      TailShape(s, r.value.createdEnd);
    }
  }

  /** A match is `@createTime{`, a run of digits, and a tail that matches. */
  lemma MatchParts(s: string, i: nat)
    requires i <= |s|
    ensures var r := MatchAt(s, i);
      r.Some? ==>
        && AllDigits(Created(s, r.value))
        && r.value.createdEnd <= |s| && TailAt(s, r.value.createdEnd) == Some(r.value.end)
  {
    var r := MatchAt(s, i);
    if r.Some? {
      var a := i + |Open|;
      DigitRunDigits(s, a);
      assert forall j :: 0 <= j < |Created(s, r.value)| ==> Created(s, r.value)[j] == s[a + j];
    }
  }

  /** A digit string followed by a non-digit (or the end) is exactly the
      digit run found at its position. */
  lemma DigitsHere(s: string, c: nat, d: string)
    requires HasAt(s, c, d) && AllDigits(d)
    requires c + |d| == |s| || !IsDigit(s[c + |d|])
    ensures DigitRun(s, c) == |d|
  {
    forall j | c <= j < c + |d|
      ensures IsDigit(s[j])
    {
      assert s[j] == s[c..c + |d|][j - c];
    }
    DigitRunExact(s, c, |d|);
  }

  /** The text Java writes for a `long`: digits, or '-' and digits. */
  predicate IsDecimalText(d: string) {
    || (|d| > 0 && AllDigits(d))
    || (|d| > 1 && d[0] == '-' && AllDigits(d[1..]))
  }

  /** The tail of the pattern matches wherever `}expireMills{`, the decimal
      text of a number and `}@` follow each other. */
  lemma TailFromPieces(s: string, b: nat, d: string)
    requires IsDecimalText(d)
    requires HasAt(s, b, Middle)
    requires HasAt(s, b + |Middle|, d)
    requires HasAt(s, b + |Middle| + |d|, Close)
    ensures TailAt(s, b) == Some(b + |Middle| + |d| + |Close|)
  {
    var c := b + |Middle|;
    var e := c + |d|;
    assert s[c..e] == d;
    assert s[e] == '}' by {
      assert s[e] == s[e..e + |Close|][0];
    }
    assert s[c] == d[0] by {
      assert s[c] == s[c..e][0];
    }
    if |d| > 0 && AllDigits(d) {
      assert SkipMinus(s, c) == c;
      DigitsHere(s, c, d);
    } else {
      assert SkipMinus(s, c) == c + 1;
      assert s[c + 1..e] == s[c..e][1..];
      DigitsHere(s, c + 1, d[1..]);
    }
    TailFromDigits(s, b, e);
  }

  /** The tail matches when `}expireMills{` is followed by an optional '-',
      a run of digits ending at `e`, and `}@`. */
  lemma TailFromDigits(s: string, b: nat, e: nat)
    requires HasAt(s, b, Middle) && HasAt(s, e, Close)
    requires SkipMinus(s, b + |Middle|) < e && DigitRun(s, SkipMinus(s, b + |Middle|)) == e - SkipMinus(s, b + |Middle|)
    ensures TailAt(s, b) == Some(e + |Close|)
  {
  }

  /** The pattern matches at `i` when `@createTime{`, a non-empty run of
      digits and a matching tail follow each other there. */
  lemma MatchFromDigits(s: string, i: nat, d: string, end: nat)
    requires HasAt(s, i, Open) && HasAt(s, i + |Open|, d)
    requires |d| > 0 && AllDigits(d)
    requires HasAt(s, i + |Open| + |d|, Middle)
    requires TailAt(s, i + |Open| + |d|) == Some(end)
    ensures MatchAt(s, i) == Some(Match(i, i + |Open| + |d|, end))
  {
    var b := i + |Open| + |d|;
    assert s[b] == '}' by {
      assert s[b..b + |Middle|][0] == s[b];
    }
    DigitsHere(s, i + |Open|, d);
    MatchFromRun(s, i, |d|, end);
  }

  /** The pattern matches at `i` when `@createTime{` is followed by a
      maximal run of `n > 0` digits and a matching tail. */
  lemma MatchFromRun(s: string, i: nat, n: nat, end: nat)
    requires HasAt(s, i, Open) && n > 0
    requires i + |Open| + n <= |s|
    requires DigitRun(s, i + |Open|) == n
    requires TailAt(s, i + |Open| + n) == Some(end)
    ensures MatchAt(s, i) == Some(Match(i, i + |Open| + n, end))
  {
  }

  /** The whole pattern matches wherever a stamp's pieces follow each
      other. */
  lemma MatchFromPieces(s: string, i: nat, d1: string, d2: string)
    requires |d1| > 0 && AllDigits(d1) && IsDecimalText(d2)
    requires HasAt(s, i, Open)
    requires HasAt(s, i + |Open|, d1)
    requires HasAt(s, i + |Open| + |d1|, Middle)
    requires HasAt(s, i + |Open| + |d1| + |Middle|, d2)
    requires HasAt(s, i + |Open| + |d1| + |Middle| + |d2|, Close)
    ensures MatchAt(s, i) == Some(Match(i, i + |Open| + |d1|, i + |Open| + |d1| + |Middle| + |d2| + |Close|))
  {
    var b := i + |Open| + |d1|;
    TailFromPieces(s, b, d2);
    MatchFromDigits(s, i, d1, b + |Middle| + |d2| + |Close|);
  }

  /** The groups of a match are the texts placed between its literals. */
  lemma GroupsFromPieces(s: string, m: Match, d: string, d2: string)
    requires Placed(s, m)
    requires HasAt(s, m.start + |Open|, d) && m.createdEnd == m.start + |Open| + |d|
    requires HasAt(s, m.createdEnd + |Middle|, d2) && m.end == m.createdEnd + |Middle| + |d2| + |Close|
    ensures Created(s, m) == d && Expires(s, m) == d2
  {
  }

  /** Concatenation regroups. */
  lemma Regroup(a: string, b: string, c: string)
    ensures a + b + c == a + (b + c)
  {
  }

  lemma HasAtExtend(x: string, y: string, k: int, p: string)
    requires HasAt(x, k, p)
    ensures HasAt(x + y, k, p)
  {
    assert (x + y)[k..k + |p|] == x[k..k + |p|];
  }

  lemma HasAtAppended(x: string, y: string)
    ensures HasAt(x + y, |x|, y)
  {
    assert (x + y)[|x|..|x| + |y|] == y;
  }

  lemma HasAtShift(pre: string, x: string, k: int, p: string)
    requires HasAt(x, k, p)
    ensures HasAt(pre + x, |pre| + k, p)
  {
    assert (pre + x)[|pre| + k..|pre| + k + |p|] == x[k..k + |p|];
  }

  /** `p` at `k` inside the stamp is `p` at `|pre| + k` once the stamp is
      placed between `pre` and `rest`. */
  lemma HasAtPlaced(pre: string, x: string, rest: string, k: int, p: string)
    requires HasAt(x, k, p)
    ensures HasAt(pre + x + rest, |pre| + k, p)
  {
    HasAtShift(pre, x, k, p);
    HasAtExtend(pre + x, rest, |pre| + k, p);
  }

  /** Where each of five concatenated pieces sits. */
  lemma FivePieces(a: string, b: string, c: string, d: string, e: string)
    ensures var s := a + b + c + d + e;
      && HasAt(s, 0, a)
      && HasAt(s, |a|, b)
      && HasAt(s, |a| + |b|, c)
      && HasAt(s, |a| + |b| + |c|, d)
      && HasAt(s, |a| + |b| + |c| + |d|, e)
  {
    var s := a + b + c + d + e;
    assert s == a + (b + c + d + e);
    assert s[0..|a|] == a;
    assert s == (a + b) + (c + d + e);
    assert s[|a|..|a| + |b|] == b;
    assert s == (a + b + c) + (d + e);
    assert s[|a| + |b|..|a| + |b| + |c|] == c;
    assert s == (a + b + c + d) + e;
    assert s[|a| + |b| + |c|..|a| + |b| + |c| + |d|] == d;
    assert s[|a| + |b| + |c| + |d|..|s|] == e;
  }

  /** Where the five pieces of a stamp sit. */
  lemma SuffixPieces(createTime: int, expireMills: int)
    ensures var d1, d2 := ToDecimal(createTime), ToDecimal(expireMills);
      var sfx := Suffix(createTime, expireMills);
      && HasAt(sfx, 0, Open)
      && HasAt(sfx, |Open|, d1)
      && HasAt(sfx, |Open| + |d1|, Middle)
      && HasAt(sfx, |Open| + |d1| + |Middle|, d2)
      && HasAt(sfx, |Open| + |d1| + |Middle| + |d2|, Close)
      && |sfx| == |Open| + |d1| + |Middle| + |d2| + |Close|
  {
    FivePieces(Open, ToDecimal(createTime), Middle, ToDecimal(expireMills), Close);
  }

  /** A stamp starts with '@', which is what keeps a preceding tag-free
      value tag-free. */
  lemma SuffixStartsWithAt(createTime: int, expireMills: int)
    ensures |Suffix(createTime, expireMills)| > 0 && Suffix(createTime, expireMills)[0] == '@'
  {
    SuffixPieces(createTime, expireMills);
    var sfx := Suffix(createTime, expireMills);
    assert sfx[0] == sfx[0..|Open|][0] == Open[0];
  }

  /** A stamp placed anywhere in a string is matched where it starts, and
      its groups are the decimal texts of the two numbers. */
  lemma SuffixMatches(pre: string, createTime: int, expireMills: int, rest: string)
    requires createTime >= 0
    ensures StampMatchAt(pre + Suffix(createTime, expireMills) + rest, |pre|,
                         |pre + Suffix(createTime, expireMills)|, createTime, expireMills)
  {
    var d1, d2 := ToDecimal(createTime), ToDecimal(expireMills);
    var sfx := Suffix(createTime, expireMills);
    SuffixPieces(createTime, expireMills);
    HasAtPlaced(pre, sfx, rest, 0, Open);
    HasAtPlaced(pre, sfx, rest, |Open|, d1);
    HasAtPlaced(pre, sfx, rest, |Open| + |d1|, Middle);
    HasAtPlaced(pre, sfx, rest, |Open| + |d1| + |Middle|, d2);
    HasAtPlaced(pre, sfx, rest, |Open| + |d1| + |Middle| + |d2|, Close);
    var s := pre + sfx + rest;
    assert IsDecimalText(d2);
    MatchFromPieces(s, |pre|, d1, d2);
    var m := Match(|pre|, |pre| + |Open| + |d1|, |pre + sfx|);
    GroupsFromPieces(s, m, d1, d2);
  }

  /** A stamp at the very end of a string is matched where it starts. */
  lemma SuffixMatchesAtEnd(pre: string, createTime: int, expireMills: int)
    requires createTime >= 0
    ensures StampMatchAt(pre + Suffix(createTime, expireMills), |pre|,
                         |pre + Suffix(createTime, expireMills)|, createTime, expireMills)
  {
    var s := pre + Suffix(createTime, expireMills);
    assert s + [] == s;
    SuffixMatches(pre, createTime, expireMills, []);
  }

  /** The first occurrence is the one with none before it. */
  lemma IndexOfIs(s: string, needle: string, k: int)
    requires HasAt(s, k, needle)
    requires forall j :: 0 <= j < k ==> !HasAt(s, j, needle)
    ensures IndexOf(s, needle) == k
  {
  }

  /** The pattern begins with the tag `indexOf` looks for. */
  lemma OpenStartsWithTag(s: string, j: int)
    requires HasAt(s, j, Open)
    ensures HasAt(s, j, CreateTag)
  {
    assert s[j..j + |CreateTag|] == s[j..j + |Open|][..|CreateTag|];
  }

  /** A match can only start where the tag `indexOf` looks for starts. */
  lemma MatchNeedsTag(s: string, j: nat)
    requires j <= |s|
    ensures MatchAt(s, j).Some? ==> HasAt(s, j, CreateTag)
  {
    if HasAt(s, j, Open) {
      assert s[j..j + |CreateTag|] == s[j..j + |Open|][..|CreateTag|];
    }
  }

  /** A value free of the tag, followed by anything that starts with '@',
      has no tag starting inside the value: the tag has no proper border,
      so it cannot straddle the join. */
  lemma NoTagInValue(value: string, rest: string)
    requires IndexOf(value, CreateTag) == -1
    requires |rest| > 0 && rest[0] == '@'
    ensures forall j :: 0 <= j < |value| ==> !HasAt(value + rest, j, CreateTag)
  {
    var s := value + rest;
    forall j | 0 <= j < |value|
      ensures !HasAt(s, j, CreateTag)
    {
      if j + |CreateTag| <= |value| {
        assert !HasAt(value, j, CreateTag);
        assert value[j..j + |CreateTag|] == s[j..j + |CreateTag|];
      } else if j + |CreateTag| <= |s| {
        var k := |value| - j;
        assert s[j..j + |CreateTag|][k] == s[|value|] == '@';
        assert CreateTag[k] != '@';
      }
    }
  }

  /** No match starts inside a tag-free value that is followed by a stamp. */
  lemma NoMatchInValue(value: string, rest: string)
    requires IndexOf(value, CreateTag) == -1
    requires |rest| > 0 && rest[0] == '@'
    ensures forall j :: 0 <= j < |value| ==> MatchAt(value + rest, j).None?
  {
    NoTagInValue(value, rest);
    forall j | 0 <= j < |value|
      ensures MatchAt(value + rest, j).None?
    {
      MatchNeedsTag(value + rest, j);
    }
  }

  lemma {:induction false} FindSkips(s: string, p: nat, q: nat)
    requires p <= q <= |s|
    requires forall j :: p <= j < q ==> MatchAt(s, j).None?
    ensures FindFrom(s, p) == FindFrom(s, q)
    decreases q - p
  {
    if p < q {
      assert MatchAt(s, p).None?;
      assert FindFrom(s, p) == FindFrom(s, p + 1);
      FindSkips(s, p + 1, q);
    }
  }

  /** Reading back a tag-free value stamped once: the scan finds exactly
      that stamp and the cut removes exactly it. */
  lemma {:induction false} ScanOfStamp(value: string, createTime: int, expireMills: int)
    requires IndexOf(value, CreateTag) == -1
    requires 0 <= createTime <= LongMax && IsLong(expireMills)
    ensures Scan(Stamp(value, createTime, expireMills), 0, Stamps(0, 0))
         == Some(Stamps(createTime, expireMills))
    ensures IndexOf(Stamp(value, createTime, expireMills), CreateTag) == |value|
  {
    var sfx := Suffix(createTime, expireMills);
    SuffixStartsWithAt(createTime, expireMills);
    NoMatchInValue(value, sfx);
    NoTagInValue(value, sfx);
    ScanSkips(value + sfx, 0, |value|, Stamps(0, 0));
    ScanOfLastSuffix(value, createTime, expireMills, Stamps(0, 0));
  }

  /** A stamp that ends the content is the last match the scan meets: the
      scan, resumed where the stamp starts, ends with its numbers. */
  lemma ScanOfLastSuffix(pre: string, createTime: int, expireMills: int, acc: Stamps)
    requires 0 <= createTime <= LongMax && IsLong(expireMills)
    ensures Scan(pre + Suffix(createTime, expireMills), |pre|, acc) == Some(Stamps(createTime, expireMills))
  {
    var s := pre + Suffix(createTime, expireMills);
    SuffixMatchesAtEnd(pre, createTime, expireMills);
    ScanAtMatch(s, |pre|, acc, |s|, createTime, expireMills);
    assert FindFrom(s, |s|).None?;
  }

  /** A stamp that follows a tag-free value is the first match the scan
      meets, whatever comes after it: the scan from the start equals the
      scan resumed after the stamp with its numbers. */
  lemma ScanOfFirstSuffix(value: string, createTime: int, expireMills: int, rest: string)
    requires IndexOf(value, CreateTag) == -1
    requires 0 <= createTime <= LongMax && IsLong(expireMills)
    ensures Scan(value + Suffix(createTime, expireMills) + rest, 0, Stamps(0, 0))
         == Scan(value + Suffix(createTime, expireMills) + rest, |value + Suffix(createTime, expireMills)|,
                 Stamps(createTime, expireMills))
  {
    var sfx := Suffix(createTime, expireMills);
    var s := value + sfx + rest;
    Regroup(value, sfx, rest);
    SuffixStartsWithAt(createTime, expireMills);
    NoMatchInValue(value, sfx + rest);
    ScanSkips(s, 0, |value|, Stamps(0, 0));
    SuffixMatches(value, createTime, expireMills, rest);
    ScanAtMatch(s, |value|, Stamps(0, 0), |value + sfx|, createTime, expireMills);
  }

  /** The read decision once the scan and the cut position are known: the
      prefix before the first tag while the stamps are fresh, expired
      otherwise. */
  lemma DecodeOnceScanned(content: string, now: int, st: Stamps, value: string)
    requires Scan(content, 0, Stamps(0, 0)) == Some(st)
    requires IndexOf(content, CreateTag) == |value| && content[..|value|] == value
    ensures Decode(content, now) == if StillFresh(st, now) then Fresh(value) else Expired
  {
  }

  /** Round trip of the overlay: a value that does not itself contain the
      tag comes back unchanged while it is fresh (never-expire, or
      `createTime + expireMills` after `now`), and is reported expired
      otherwise; the boundary `createTime + expireMills == now` is expired. */
  lemma {:induction false} StampRoundTrip(value: string, createTime: int, expireMills: int, now: int)
    requires IndexOf(value, CreateTag) == -1
    requires 0 <= createTime <= LongMax && IsLong(expireMills)
    ensures Decode(Stamp(value, createTime, expireMills), now)
         == if StillFresh(Stamps(createTime, expireMills), now) then Fresh(value) else Expired
  {
    ScanOfStamp(value, createTime, expireMills);
    DecodeOnceScanned(Stamp(value, createTime, expireMills), now, Stamps(createTime, expireMills), value);
  }

  /** Choosing a huge time-to-live does not mean "keep for ever": once
      `createTime + expireMills` overflows a `long` the wrapped sum is
      negative and the entry reads as expired at any non-negative time. */
  lemma {:induction false} OverflowingLifetimeExpires(value: string, createTime: int, expireMills: int, now: int)
    requires IndexOf(value, CreateTag) == -1
    requires 0 <= createTime <= LongMax && IsLong(expireMills)
    requires createTime + expireMills > LongMax && now >= 0
    ensures Decode(Stamp(value, createTime, expireMills), now) == Expired
  {
    StampRoundTrip(value, createTime, expireMills, now);
  }

  /** Where a match of two in-range numbers starts, the scan adopts them and
      resumes after the match. */
  lemma ScanAtMatch(s: string, p: nat, acc: Stamps, end: nat, createTime: int, expireMills: int)
    requires p <= |s|
    requires 0 <= createTime <= LongMax && IsLong(expireMills)
    requires StampMatchAt(s, p, end, createTime, expireMills)
    ensures end <= |s|
    ensures Scan(s, p, acc) == Scan(s, end, Stamps(createTime, expireMills))
  {
    DecimalRoundTrip(createTime);
    DecimalRoundTrip(expireMills);
    assert FindFrom(s, p) == MatchAt(s, p);
  }

  /** The scan skips positions where no match starts. */
  lemma ScanSkips(s: string, p: nat, q: nat, acc: Stamps)
    requires p <= q <= |s|
    requires forall j :: p <= j < q ==> MatchAt(s, j).None?
    ensures Scan(s, p, acc) == Scan(s, q, acc)
  {
    FindSkips(s, p, q);
  }

  /** Scanning a tag-free value followed by two stamps ends with the
      numbers of the second stamp. */
  lemma {:induction false} ScanOfTwoSuffixes(value: string, c1: int, e1: int, c2: int, e2: int)
    requires IndexOf(value, CreateTag) == -1
    requires 0 <= c1 <= LongMax && IsLong(e1)
    requires 0 <= c2 <= LongMax && IsLong(e2)
    ensures Scan(value + Suffix(c1, e1) + Suffix(c2, e2), 0, Stamps(0, 0)) == Some(Stamps(c2, e2))
  {
    ScanOfFirstSuffix(value, c1, e1, Suffix(c2, e2));
    ScanOfLastSuffix(value + Suffix(c1, e1), c2, e2, Stamps(c1, e1));
  }

  /** The first tag of a tag-free value followed by something that starts
      with the pattern's opening is right after the value. */
  lemma {:induction false} FirstTagAfterValue(value: string, rest: string)
    requires IndexOf(value, CreateTag) == -1
    requires HasAt(rest, 0, Open)
    ensures IndexOf(value + rest, CreateTag) == |value|
  {
    assert rest[0] == rest[0..|Open|][0] == '@';
    NoTagInValue(value, rest);
    HasAtShift(value, rest, 0, Open);
    OpenStartsWithTag(value + rest, |value|);
    IndexOfIs(value + rest, CreateTag, |value|);
  }

  /** The first tag of a tag-free value followed by two stamps is where the
      first stamp begins. */
  lemma {:induction false} FirstTagOfTwoSuffixes(value: string, c1: int, e1: int, c2: int, e2: int)
    requires IndexOf(value, CreateTag) == -1
    ensures IndexOf(value + Suffix(c1, e1) + Suffix(c2, e2), CreateTag) == |value|
  {
    var s1 := Suffix(c1, e1);
    var s2 := Suffix(c2, e2);
    Regroup(value, s1, s2);
    SuffixPieces(c1, e1);
    HasAtExtend(s1, s2, 0, Open);
    FirstTagAfterValue(value, s1 + s2);
  }

  /** Scanning a tag-free value stamped twice ends with the numbers of the
      outer stamp, and the first tag is where the inner stamp begins. */
  lemma ScanOfDoubleStamp(value: string, c1: int, e1: int, c2: int, e2: int)
    requires IndexOf(value, CreateTag) == -1
    requires 0 <= c1 <= LongMax && IsLong(e1)
    requires 0 <= c2 <= LongMax && IsLong(e2)
    ensures Scan(Stamp(Stamp(value, c1, e1), c2, e2), 0, Stamps(0, 0)) == Some(Stamps(c2, e2))
    ensures IndexOf(Stamp(Stamp(value, c1, e1), c2, e2), CreateTag) == |value|
  {
    assert Stamp(Stamp(value, c1, e1), c2, e2) == value + Suffix(c1, e1) + Suffix(c2, e2);
    ScanOfTwoSuffixes(value, c1, e1, c2, e2);
    FirstTagOfTwoSuffixes(value, c1, e1, c2, e2);
  }

  /** A value stamped twice: the scan keeps the timestamps of the LAST stamp,
      but the value is cut at the FIRST tag, so the inner stamp is dropped
      together with the outer one. */
  lemma {:induction false} LastStampWinsFirstTagCuts(value: string, c1: int, e1: int, c2: int, e2: int, now: int)
    requires IndexOf(value, CreateTag) == -1
    requires 0 <= c1 <= LongMax && IsLong(e1)
    requires 0 <= c2 <= LongMax && IsLong(e2)
    ensures Decode(Stamp(Stamp(value, c1, e1), c2, e2), now)
         == if StillFresh(Stamps(c2, e2), now) then Fresh(value) else Expired
  {
    ScanOfDoubleStamp(value, c1, e1, c2, e2);
    var content := Stamp(Stamp(value, c1, e1), c2, e2);
    assert content[..|value|] == Stamp(value, c1, e1)[..|value|] == value;
    DecodeOnceScanned(content, now, Stamps(c2, e2), value);
  }

  /** Content that carries no well-formed stamp leaves both timestamps at 0,
      so at any non-negative time it reads as expired. */
  lemma UnstampedContentExpires(content: string, now: int)
    requires FindFrom(content, 0).None? && now >= 0
    ensures Decode(content, now) == Expired
  {
  }
}
