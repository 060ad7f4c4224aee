/** The parsing and validation of the seed text box (components/SeedInput.tsx:18-41): the raw
    text becomes either an error or the list of seed usernames handed to `onSubmit`. */
module SeedInput {
  import opened Collections
  import Calculations

  // ---------------------------------------------------------------------------------------------
  // input.split(/[\n,]+/)

  predicate IsSeparator(c: char)
  {
    c == '\n' || c == ','
  }

  predicate IsText(c: char)
  {
    !IsSeparator(c)
  }

  /** A piece holds no separator. */
  predicate IsPlain(p: string)
  {
    forall k :: 0 <= k < |p| ==> IsText(p[k])
  }

  /** Splits at every maximal run of separators. Like JavaScript's `split`, a separator run at
      the very start or end yields an empty first or last piece, and the empty text yields one
      empty piece. */
  function Split(s: string): (pieces: seq<string>)
    ensures |pieces| >= 1
    ensures forall i :: 0 <= i < |pieces| ==> IsPlain(pieces[i])
  {
    if s == [] then [[]]
    else if IsText(s[0]) then
      var rest := Split(s[1..]);
      [[s[0]] + rest[0]] + rest[1..]
    else if |s| > 1 && IsSeparator(s[1]) then Split(s[1..])
    else [[]] + Split(s[1..])
  }

  /** The pieces glued back together. */
  function Concat(pieces: seq<string>): string
  {
    if pieces == [] then [] else pieces[0] + Concat(pieces[1..])
  }

  /** Splitting loses only separators: the pieces hold all the other characters, in order. */
  lemma {:induction false} SplitKeepsText(s: string)
    ensures Concat(Split(s)) == Filter(s, IsText)
  {
    if s != [] {
      SplitKeepsText(s[1..]);
      var rest := Split(s[1..]);
      if IsText(s[0]) {
        assert Concat(rest) == rest[0] + Concat(rest[1..]);
        var pieces := [[s[0]] + rest[0]] + rest[1..];
        assert pieces[1..] == rest[1..];
        assert Concat(pieces) == [s[0]] + rest[0] + Concat(rest[1..]);
      } else if !(|s| > 1 && IsSeparator(s[1])) {
        assert ([[]] + rest)[1..] == rest;
      }
    }
  }

  /** Separator runs are maximal: only the first and the last piece can be empty. */
  lemma {:induction false} SplitInnerPiecesNonEmpty(s: string)
    ensures forall i :: 0 < i < |Split(s)| - 1 ==> Split(s)[i] != []
  {
    if s != [] {
      SplitInnerPiecesNonEmpty(s[1..]);
      var rest := Split(s[1..]);
      var pieces := Split(s);
      if IsText(s[0]) {
        assert forall i :: 0 < i < |pieces| ==> pieces[i] == rest[i];
      } else if !(|s| > 1 && IsSeparator(s[1])) {
        assert pieces == [[]] + rest;
        if |s| > 1 {
          assert s[1..] != [] && IsText(s[1..][0]);
          assert rest[0] != [];
        } else {
          assert s[1..] == [] && rest == [[]];
        }
        forall i | 0 < i < |pieces| - 1 ensures pieces[i] != [] {
          assert pieces[i] == rest[i - 1];
        }
      }
    }
  }

  /** Text without separators in front of `t` extends the first piece of `t`. */
  lemma {:induction false} SplitAfterPlain(p: string, t: string)
    requires IsPlain(p)
    ensures Split(p + t) == [p + Split(t)[0]] + Split(t)[1..]
    decreases |p|
  {
    if p == [] {
      assert p + t == t && p + Split(t)[0] == Split(t)[0];
      assert Split(t) == [Split(t)[0]] + Split(t)[1..];
    } else {
      assert (p + t)[0] == p[0] && (p + t)[1..] == p[1..] + t;
      SplitAfterPlain(p[1..], t);
      assert [p[0]] + (p[1..] + Split(t)[0]) == p + Split(t)[0];
    }
  }

  /** Pieces that could come out of a split: at least one, none holding a separator, and only
      the first and the last possibly empty. */
  predicate IsSplitShape(pieces: seq<string>)
  {
    && |pieces| >= 1
    && (forall i :: 0 <= i < |pieces| ==> IsPlain(pieces[i]))
    && (forall i :: 0 < i < |pieces| - 1 ==> pieces[i] != [])
  }

  /** A separator followed by text, or by nothing, starts a new piece. */
  lemma SplitAtSeparator(sep: char, t: string)
    requires IsSeparator(sep) && (t == [] || IsText(t[0]))
    ensures Split([sep] + t) == [[]] + Split(t)
  {
    assert ([sep] + t)[1..] == t;
  }

  /** The join of the pieces after the first starts with text, or is empty. */
  lemma JoinedTailStartsWithText(pieces: seq<string>, sep: char)
    requires IsSplitShape(pieces) && |pieces| > 1
    ensures var joined := Join(pieces[1..], [sep]); joined == [] || IsText(joined[0])
  {
    var rest := pieces[1..];
    if |rest| > 1 {
      assert rest[0] == pieces[1] && rest[0] != [];
      assert Join(rest, [sep])[0] == rest[0][0];
    } else {
      assert Join(rest, [sep]) == rest[0] && IsPlain(pieces[1]);
    }
  }

  /** The pieces after the first have the shape of a split too. */
  lemma SplitShapeTail(pieces: seq<string>)
    requires IsSplitShape(pieces) && |pieces| > 1
    ensures IsSplitShape(pieces[1..])
  {
    assert forall i :: 0 <= i < |pieces| - 1 ==> pieces[1..][i] == pieces[i + 1];
  }

  /** Where the cuts fall: joining such pieces with one separator and splitting the result
      gives the pieces back. */
  lemma {:induction false} SplitJoinRoundTrip(pieces: seq<string>, sep: char)
    requires IsSeparator(sep) && IsSplitShape(pieces)
    ensures Split(Join(pieces, [sep])) == pieces
    decreases |pieces|
  {
    if |pieces| == 1 {
      SplitAfterPlain(pieces[0], []);
      assert pieces[0] + [] == pieces[0];
    } else {
      var joined := Join(pieces[1..], [sep]);
      SplitShapeTail(pieces);
      SplitJoinRoundTrip(pieces[1..], sep);
      JoinedTailStartsWithText(pieces, sep);
      PieceThenSeparator(pieces[0], sep, joined);
      assert Join(pieces, [sep]) == pieces[0] + ([sep] + joined);
      assert pieces == [pieces[0]] + pieces[1..];
    }
  }

  /** A piece, then one separator, then text or nothing: the piece is cut off whole. */
  lemma PieceThenSeparator(p: string, sep: char, t: string)
    requires IsPlain(p) && IsSeparator(sep) && (t == [] || IsText(t[0]))
    ensures Split(p + ([sep] + t)) == [p] + Split(t)
  {
    SplitAtSeparator(sep, t);
    SplitAfterPlain(p, [sep] + t);
    assert p + [] == p;
  }

  /** A run of separators cuts like a single one: dropping the second of two adjacent
      separators does not change the pieces. */
  lemma {:induction false} SplitCollapsesRuns(a: string, c: char, d: char, b: string)
    requires IsSeparator(c) && IsSeparator(d)
    ensures Split(a + [c, d] + b) == Split(a + [c] + b)
    decreases |a|
  {
    var long, short := a + [c, d] + b, a + [c] + b;
    if a == [] {
      assert long == [c] + ([d] + b) && short == [c] + b;
      assert long[1..] == [d] + b && ([d] + b)[1..] == b && short[1..] == b;
    } else {
      assert long[0] == a[0] && short[0] == a[0];
      assert long[1..] == a[1..] + [c, d] + b && short[1..] == a[1..] + [c] + b;
      assert long[1] == short[1];
      SplitCollapsesRuns(a[1..], c, d, b);
    }
  }

  // ---------------------------------------------------------------------------------------------
  // u.trim().replace('@', '')

  /** ECMAScript WhiteSpace and LineTerminator code points, the set `trim` removes. */
  predicate IsSpace(c: char)
  {
    || c == '\t' || c == '\n' || c == '\U{000B}' || c == '\U{000C}' || c == '\r' || c == ' '
    || c == '\U{00A0}' || c == '\U{1680}' || ('\U{2000}' <= c <= '\U{200A}')
    || c == '\U{2028}' || c == '\U{2029}' || c == '\U{202F}' || c == '\U{205F}'
    || c == '\U{3000}' || c == '\U{FEFF}'
  }

  /** Drops the leading white space: the result is the suffix of `s` after it. */
  function TrimStart(s: string): (r: string)
    ensures |r| <= |s| && r == s[|s| - |r|..]
    ensures forall i :: 0 <= i < |s| - |r| ==> IsSpace(s[i])
    ensures r == [] || !IsSpace(r[0])
  {
    if s != [] && IsSpace(s[0]) then TrimStart(s[1..]) else s
  }

  /** Drops the trailing white space: the result is the prefix of `s` before it. */
  function TrimEnd(s: string): (r: string)
    ensures |r| <= |s| && r == s[..|r|]
    ensures forall i :: |r| <= i < |s| ==> IsSpace(s[i])
    ensures r == [] || !IsSpace(r[|r| - 1])
  {
    if s != [] && IsSpace(s[|s| - 1]) then TrimEnd(s[..|s| - 1]) else s
  }

  /** `trim`: neither end of the result is white space. */
  function Trim(s: string): (r: string)
    ensures |r| <= |s|
    ensures r == [] || (!IsSpace(r[0]) && !IsSpace(r[|r| - 1]))
  {
    var front := TrimStart(s);
    var r := TrimEnd(front);
    assert r == [] || r[0] == front[0];
    r
  }

  /** Cutting `s` to `s[i..j]` removes only white space. */
  predicate CutsOnlySpace(s: string, i: int, j: int)
  {
    && 0 <= i <= j <= |s|
    && (forall k :: 0 <= k < i ==> IsSpace(s[k]))
    && (forall k :: j <= k < |s| ==> IsSpace(s[k]))
  }

  /** `trim` removes exactly the white space at both ends: what remains is a slice of `s`
      neither end of which is white space, and everything cut off is white space. */
  lemma TrimIsSlice(s: string)
    ensures exists i, j :: CutsOnlySpace(s, i, j) && Trim(s) == s[i..j]
  {
    var front := TrimStart(s);
    var r := TrimEnd(front);
    var i := |s| - |front|;
    PrefixOfSuffix(s, i, front, r);
    assert CutsOnlySpace(s, i, i + |r|);
  }

  /** A prefix `r` of the suffix `front == s[i..]` is the slice `s[i..i + |r|]`, and white
      space after `r` in `front` is white space after that slice in `s`. */
  lemma PrefixOfSuffix(s: string, i: nat, front: string, r: string)
    requires i <= |s| && front == s[i..]
    requires |r| <= |front| && r == front[..|r|]
    requires forall k :: |r| <= k < |front| ==> IsSpace(front[k])
    ensures r == s[i..i + |r|]
    ensures forall k :: i + |r| <= k < |s| ==> IsSpace(s[k])
  {
    forall k | i + |r| <= k < |s| ensures IsSpace(s[k]) {
      assert s[k] == front[k - i];
    }
  }

  /** The index of the first `@` in `s`, or `|s|` when there is none. */
  function FirstAt(s: string): (k: nat)
    ensures k <= |s| && '@' !in s[..k]
    ensures k < |s| ==> s[k] == '@'
    ensures k == |s| <==> '@' !in s
  {
    if s == [] then 0
    else if s[0] == '@' then 0
    else
      assert s[..FirstAt(s[1..]) + 1] == [s[0]] + s[1..][..FirstAt(s[1..])];
      assert '@' in s[1..] ==> '@' in s;
      FirstAt(s[1..]) + 1
  }

  /** `replace('@', '')` with a string pattern: only the first `@`, wherever it is, goes. */
  function RemoveFirstAt(s: string): (r: string)
    ensures |r| == if '@' in s then |s| - 1 else |s|
    ensures '@' !in s ==> r == s
    ensures forall c :: c in r ==> c in s
  {
    if s == [] then []
    else if s[0] == '@' then s[1..]
    else [s[0]] + RemoveFirstAt(s[1..])
  }

  /** What `RemoveFirstAt` cuts: the first `@` if there is one, and nothing else. */
  lemma RemoveFirstAtCutsFirst(s: string)
    ensures var k := FirstAt(s);
      RemoveFirstAt(s) == if k == |s| then s else s[..k] + s[k + 1..]
  {
    if '@' in s {
      RemoveFirstAtCutsAt(s);
    }
  }

  /** With an `@` in `s`, exactly the one at `FirstAt(s)` goes. */
  lemma {:induction false} RemoveFirstAtCutsAt(s: string)
    requires '@' in s
    ensures RemoveFirstAt(s) == s[..FirstAt(s)] + s[FirstAt(s) + 1..]
  {
    if s[0] == '@' {
      assert FirstAt(s) == 0 && s[..0] + s[1..] == s[1..];
    } else {
      var tail := s[1..];
      assert s == [s[0]] + tail;
      assert '@' in tail;
      RemoveFirstAtCutsAt(tail);
      var k := FirstAt(tail);
      assert FirstAt(s) == k + 1;
      assert s[..k + 1] == [s[0]] + tail[..k] && s[k + 2..] == tail[k + 1..];
    }
  }

  /** One entry: `u.trim().replace('@', '')`; it never grows. */
  function Clean(piece: string): (u: string)
    ensures |u| <= |piece|
  {
    RemoveFirstAt(Trim(piece))
  }

  lemma CleanKeepsPlain(piece: string)
    requires IsPlain(piece)
    ensures IsPlain(Clean(piece))
  {
    var front := TrimStart(piece);
    assert IsPlain(front) by {
      forall k | 0 <= k < |front| ensures IsText(front[k]) {
        assert front[k] == piece[|piece| - |front| + k];
      }
    }
    var trimmed := TrimEnd(front);
    assert IsPlain(trimmed) by {
      forall k | 0 <= k < |trimmed| ensures IsText(trimmed[k]) {
        assert trimmed[k] == front[k];
      }
    }
    var u := RemoveFirstAt(trimmed);
    forall k | 0 <= k < |u| ensures IsText(u[k]) {
      assert u[k] in u;
      var at :| 0 <= at < |trimmed| && trimmed[at] == u[k];
    }
  }

  /** A well-formed name comes out of cleaning unchanged. */
  lemma CleanKeepsWellFormed(u: string)
    requires IsWellFormed(u)
    ensures Clean(u) == u
  {
    WellFormedIsPlain(u);
    assert TrimStart(u) == u;
    assert TrimEnd(u) == u;
  }

  predicate IsPresent(u: string)
  {
    |u| > 0
  }

  /** The entries parsed from the pieces: each trimmed and stripped of its first `@`, empties dropped. */
  function ParsePieces(pieces: seq<string>): seq<string>
  {
    Filter(MapSeq(pieces, Clean), IsPresent)
  }

  /** The parsed entries of the text box: at most one per piece, none empty or holding a
      separator. */
  function ParseUsernames(input: string): (usernames: seq<string>)
    ensures |usernames| <= |Split(input)|
    ensures forall u :: u in usernames ==> u != [] && IsPlain(u)
  {
    var pieces := Split(input);
    ParsedArePlain(pieces);
    ParsePieces(pieces)
  }

  /** Entries parsed from pieces without separators are non-empty and hold none either. */
  lemma ParsedArePlain(pieces: seq<string>)
    requires forall i :: 0 <= i < |pieces| ==> IsPlain(pieces[i])
    ensures |ParsePieces(pieces)| <= |pieces|
    ensures forall u :: u in ParsePieces(pieces) ==> u != [] && IsPlain(u)
  {
    ParsedEntries(pieces);
    forall u | u in ParsePieces(pieces) ensures u != [] && IsPlain(u) {
      var p :| p in pieces && Clean(p) == u;
      CleanKeepsPlain(p);
    }
  }

  /** An entry is parsed from the pieces iff it is the non-empty cleaned form of one of them. */
  lemma ParsedEntries(pieces: seq<string>)
    ensures forall u :: u in ParsePieces(pieces) <==> IsPresent(u) && exists p :: p in pieces && Clean(p) == u
  {
    FilterMapMembers(pieces, Clean, IsPresent);
  }

  // ---------------------------------------------------------------------------------------------
  // Validation: /^[a-zA-Z0-9._]+$/ and the count checks

  predicate IsUsernameChar(c: char)
  {
    ('a' <= c <= 'z') || ('A' <= c <= 'Z') || ('0' <= c <= '9') || c == '.' || c == '_'
  }

  /** `/^[a-zA-Z0-9._]+$/.test(u)`: at least one character, every one of them allowed. */
  predicate IsWellFormed(u: string)
  {
    |u| > 0 && forall i :: 0 <= i < |u| ==> IsUsernameChar(u[i])
  }

  predicate IsMalformed(u: string)
  {
    !IsWellFormed(u)
  }

  datatype SeedError = NoUsernames | TooManyUsernames | InvalidFormat(invalid: seq<string>)

  /** The two outcomes of a submission: `onSubmit(usernames)` or `setError(...)`. */
  datatype Outcome = Submitted(usernames: seq<string>) | Rejected(error: SeedError)

  const MaxSeeds := 10

  /** The handler's outcome for the text in the box: a submitted list has one to ten entries,
      all well formed. */
  function Validate(input: string): (o: Outcome)
    ensures o.Submitted? ==> 1 <= |o.usernames| <= MaxSeeds && forall u :: u in o.usernames ==> IsWellFormed(u)
  {
    var usernames := ParseUsernames(input);
    SubmittedIffValid(usernames);
    Check(usernames)
  }

  /** The checks on the parsed entries in the order the handler makes them: at least one entry,
      at most ten, then the format of every entry. */
  function Check(usernames: seq<string>): (o: Outcome)
    ensures o.Submitted? ==> o.usernames == usernames
    ensures o == Rejected(NoUsernames) <==> |usernames| == 0
    ensures o == Rejected(TooManyUsernames) <==> |usernames| > MaxSeeds
    ensures o.Rejected? && o.error.InvalidFormat? ==> o.error.invalid == Filter(usernames, IsMalformed)
  {
    if |usernames| < 1 then Rejected(NoUsernames)
    else if |usernames| > MaxSeeds then Rejected(TooManyUsernames)
    else
      var invalid := Filter(usernames, IsMalformed);
      if |invalid| > 0 then Rejected(InvalidFormat(invalid)) else Submitted(usernames)
  }

  /** The message `setError` shows for each error. */
  function Message(e: SeedError): string
  {
    match e
    case NoUsernames => "Please enter at least 1 username"
    case TooManyUsernames => "Maximum 10 usernames allowed"
    case InvalidFormat(invalid) => "Invalid username format: " + Join(invalid, ", ")
  }

  /** `Array.prototype.join`: the parts in order with the separator between each two (see
      `JoinSnoc`). */
  function Join(parts: seq<string>, separator: string): (r: string)
    ensures parts == [] ==> r == []
    ensures parts != [] ==> parts[0] <= r
    ensures |parts| == 1 ==> r == parts[0]
  {
    if parts == [] then []
    else if |parts| == 1 then parts[0]
    else parts[0] + separator + Join(parts[1..], separator)
  }

  /** Joining one more part appends the separator and that part. */
  lemma {:induction false} JoinSnoc(parts: seq<string>, p: string, separator: string)
    requires parts != []
    ensures Join(parts + [p], separator) == Join(parts, separator) + separator + p
    decreases |parts|
  {
    var longer := parts + [p];
    assert longer[0] == parts[0] && longer[1..] == parts[1..] + [p];
    if |parts| > 1 {
      JoinSnoc(parts[1..], p, separator);
    }
  }

  /** `u` is the slice of `s` starting at offset `i`. */
  predicate SliceAt(u: string, s: string, i: int)
  {
    0 <= i && i + |u| <= |s| && s[i..i + |u|] == u
  }

  /** `u` is a contiguous slice of `s`. */
  predicate OccursIn(u: string, s: string)
  {
    exists i :: 0 <= i <= |s| && SliceAt(u, s, i)
  }

  /** A slice of `s` stays a slice when text is added on either side. */
  lemma OccursInExtended(u: string, s: string, before: string, after: string)
    requires OccursIn(u, s)
    ensures OccursIn(u, before + s + after)
  {
    var i :| 0 <= i <= |s| && SliceAt(u, s, i);
    var whole := before + s + after;
    assert whole[|before| + i..|before| + i + |u|] == s[i..i + |u|];
    assert SliceAt(u, whole, |before| + i);
  }

  /** Every part shows up, whole, in the joined text. */
  lemma {:induction false} JoinShowsEveryPart(parts: seq<string>, separator: string)
    ensures forall u :: u in parts ==> OccursIn(u, Join(parts, separator))
    decreases |parts|
  {
    if parts != [] {
      var init, last := parts[..|parts| - 1], parts[|parts| - 1];
      assert parts == init + [last];
      assert OccursIn(last, last) by {
        assert last[0..|last|] == last;
        assert SliceAt(last, last, 0);
      }
      if init == [] {
        assert Join(parts, separator) == last;
      } else {
        JoinShowsEveryPart(init, separator);
        JoinSnoc(init, last, separator);
        var front := Join(init, separator);
        var whole := Join(parts, separator);
        assert whole == [] + front + (separator + last);
        assert whole == (front + separator) + last + [];
        forall u | u in parts ensures OccursIn(u, whole) {
          if u in init {
            OccursInExtended(u, front, [], separator + last);
          } else {
            OccursInExtended(u, last, front + separator, []);
          }
        }
      }
    }
  }

  /** The format message names every malformed entry: each occurs, whole, after the fixed
      prefix. */
  lemma MessageShowsEveryInvalid(invalid: seq<string>)
    ensures "Invalid username format: " <= Message(InvalidFormat(invalid))
    ensures forall u :: u in invalid ==> OccursIn(u, Message(InvalidFormat(invalid)))
  {
    var joined := Join(invalid, ", ");
    JoinShowsEveryPart(invalid, ", ");
    forall u | u in invalid ensures OccursIn(u, Message(InvalidFormat(invalid))) {
      OccursInExtended(u, joined, "Invalid username format: ", []);
      assert "Invalid username format: " + joined + [] == Message(InvalidFormat(invalid));
    }
  }

  /** A well-formed entry holds no white space, no separator and no `@`. */
  lemma WellFormedIsPlain(u: string)
    requires IsWellFormed(u)
    ensures u != [] && '@' !in u && forall i :: 0 <= i < |u| ==> !IsSpace(u[i]) && !IsSeparator(u[i])
  {
    assert forall i :: 0 <= i < |u| ==> IsUsernameChar(u[i]);
  }

  lemma {:induction false} NoMalformedIffAllWellFormed(usernames: seq<string>)
    ensures Filter(usernames, IsMalformed) == [] <==> forall u :: u in usernames ==> IsWellFormed(u)
  {
    var invalid := Filter(usernames, IsMalformed);
    if invalid != [] {
      assert invalid[0] in invalid;
    }
  }

  /** `onSubmit` is reached iff no check fails. */
  lemma SubmittedIffValid(usernames: seq<string>)
    ensures Check(usernames).Submitted? <==>
      1 <= |usernames| <= MaxSeeds && forall u :: u in usernames ==> IsWellFormed(u)
  {
    NoMalformedIffAllWellFormed(usernames);
  }

  /** What `onSubmit` receives: 1 to 10 entries, each well formed (so non-empty, without white
      space, separators or `@`), a count for which the anchor threshold is 3 or 4. */
  lemma SubmittedEntries(usernames: seq<string>)
    requires Check(usernames).Submitted?
    ensures var submitted := Check(usernames).usernames;
      && 1 <= |submitted| <= MaxSeeds
      && (forall u :: u in submitted ==> IsWellFormed(u) && '@' !in u && ',' !in u && ' ' !in u)
      && Calculations.AnchorThreshold(|submitted|) in {3, 4}
  {
    SubmittedIffValid(usernames);
    forall u | u in usernames ensures '@' !in u && ',' !in u && ' ' !in u {
      WellFormedIsPlain(u);
    }
    Calculations.AnchorThresholdForAdmittedSeeds(|usernames|);
  }

  /** The format error lists every malformed entry, in input order, and nothing else. */
  lemma InvalidFormatListsAll(usernames: seq<string>)
    requires Check(usernames).Rejected? && Check(usernames).error.InvalidFormat?
    ensures var invalid := Check(usernames).error.invalid;
      && invalid != []
      && IsSubsequence(invalid, usernames)
      && (forall u :: u in invalid <==> u in usernames && IsMalformed(u))
      && 1 <= |usernames| <= MaxSeeds
  {
    FilterIsSubsequence(usernames, IsMalformed);
  }

  /** The count checks come first: more than ten entries is reported as such whatever their format. */
  lemma CountCheckedBeforeFormat(usernames: seq<string>)
    requires |usernames| > MaxSeeds
    ensures Check(usernames) == Rejected(TooManyUsernames)
    ensures Message(Check(usernames).error) == "Maximum 10 usernames allowed"
  {
  }

  /** The text `setError` shows for each failed check. */
  lemma CheckMessages(usernames: seq<string>)
    ensures |usernames| == 0 ==> Message(Check(usernames).error) == "Please enter at least 1 username"
    ensures |usernames| > MaxSeeds ==> Message(Check(usernames).error) == "Maximum 10 usernames allowed"
    ensures 1 <= |usernames| <= MaxSeeds && Filter(usernames, IsMalformed) != [] ==>
      Check(usernames) == Rejected(InvalidFormat(Filter(usernames, IsMalformed)))
      && Message(Check(usernames).error) == "Invalid username format: " + Join(Filter(usernames, IsMalformed), ", ")
  {
  }

  lemma MalformedExample()
    ensures Filter(["ok", "a b", "x-y"], IsMalformed) == ["a b", "x-y"]
  {
    assert IsWellFormed("ok");
    assert !IsWellFormed("a b") by { assert !IsUsernameChar("a b"[1]); }
    assert !IsWellFormed("x-y") by { assert !IsUsernameChar("x-y"[1]); }
    assert Filter(["x-y"], IsMalformed) == ["x-y"] by {
      assert ["x-y"][1..] == [];
    }
    assert Filter(["a b", "x-y"], IsMalformed) == ["a b", "x-y"] by {
      assert ["a b", "x-y"][1..] == ["x-y"];
    }
    assert ["ok", "a b", "x-y"][1..] == ["a b", "x-y"];
  }

  lemma JoinExample()
    ensures Join(["a b", "x-y"], ", ") == "a b, x-y"
  {
    assert ["a b", "x-y"][1..] == ["x-y"];
  }

  /** Two malformed entries among three are listed, comma-separated, in input order. */
  lemma InvalidFormatMessageExample()
    ensures Check(["ok", "a b", "x-y"]) == Rejected(InvalidFormat(["a b", "x-y"]))
    ensures Message(Check(["ok", "a b", "x-y"]).error) == "Invalid username format: " + "a b, x-y"
  {
    MalformedExample();
    JoinExample();
  }

  /** Well-formed names have the shape of split pieces. */
  lemma NamesHaveSplitShape(usernames: seq<string>)
    requires |usernames| >= 1 && forall u :: u in usernames ==> IsWellFormed(u)
    ensures IsSplitShape(usernames)
  {
    forall i | 0 <= i < |usernames| ensures IsPlain(usernames[i]) && usernames[i] != [] {
      assert usernames[i] in usernames;
      WellFormedIsPlain(usernames[i]);
    }
  }

  /** Parsing pieces that are already well-formed names keeps them as they are. */
  lemma ParseNames(usernames: seq<string>)
    requires forall u :: u in usernames ==> IsWellFormed(u)
    ensures ParsePieces(usernames) == usernames
  {
    forall i | 0 <= i < |usernames| ensures MapSeq(usernames, Clean)[i] == usernames[i] {
      assert usernames[i] in usernames;
      CleanKeepsWellFormed(usernames[i]);
    }
    assert MapSeq(usernames, Clean) == usernames;
    FilterKeepsAll(usernames, IsPresent);
  }

  /** Names typed one per line or separated by commas are parsed back exactly. */
  lemma ParseJoined(usernames: seq<string>, sep: char)
    requires IsSeparator(sep) && |usernames| >= 1
    requires forall u :: u in usernames ==> IsWellFormed(u)
    ensures ParseUsernames(Join(usernames, [sep])) == usernames
  {
    NamesHaveSplitShape(usernames);
    SplitJoinRoundTrip(usernames, sep);
    ParseNames(usernames);
  }

  /** One to ten well-formed names, one per line or comma-separated, are submitted as they are. */
  lemma ValidateJoined(usernames: seq<string>, sep: char)
    requires IsSeparator(sep) && 1 <= |usernames| <= MaxSeeds
    requires forall u :: u in usernames ==> IsWellFormed(u)
    ensures Validate(Join(usernames, [sep])) == Submitted(usernames)
  {
    ParseJoined(usernames, sep);
    SubmittedIffValid(usernames);
  }
}
