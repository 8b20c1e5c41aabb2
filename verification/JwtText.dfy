/**
  The text form of the module secrets: the command line writes it into an
  environment variable, the signer reads it back.
 */
module JwtText {
  import opened Wrappers

  /** Unicode white space. */
  predicate IsSpace(c: char) {
    var u := c as int;
    || 0x9 <= u <= 0xd || u == 0x20 || u == 0x85 || u == 0xa0 || u == 0x1680 || 0x2000 <= u <= 0x200a
    || u == 0x2028 || u == 0x2029 || u == 0x202f || u == 0x205f || u == 0x3000
  }

  function TrimStart(s: string): string {
    if s != [] && IsSpace(s[0]) then TrimStart(s[1..]) else s
  }

  function TrimEnd(s: string): string {
    if s != [] && IsSpace(s[|s| - 1]) then TrimEnd(s[..|s| - 1]) else s
  }

  function Trim(s: string): string {
    TrimEnd(TrimStart(s))
  }

  /** The pieces between separators; there is always at least one. */
  function Split(s: string, sep: char): (pieces: seq<string>)
    ensures |pieces| >= 1
  {
    if s == [] then [[]]
    else
      var rest := Split(s[1..], sep);
      if s[0] == sep then [[]] + rest else [[s[0]] + rest[0]] + rest[1..]
  }

  function Join(pieces: seq<string>, sep: char): string {
    if pieces == [] then []
    else if |pieces| == 1 then pieces[0]
    else pieces[0] + [sep] + Join(pieces[1..], sep)
  }

  type Entry = (string, string)

  /** Formats entries as a comma separated list of key=value. */
  function FormatCommaSeparated(entries: seq<Entry>): string {
    Join(Pairs(entries), ',')
  }

  function Pairs(entries: seq<Entry>): seq<string> {
    seq(|entries|, i requires 0 <= i < |entries| => PairText(entries[i]))
  }

  function PairText(e: Entry): string {
    e.0 + ['='] + e.1
  }

  /** The first two parts of a trimmed pair; further parts are ignored. */
  function ParsePair(pair: string): Option<Entry> {
    var parts := Split(Trim(pair), '=');
    if |parts| >= 2 then Some((parts[0], parts[1])) else None
  }

  /** Collect the pairs into a map, a later one overwriting an earlier; one bad pair spoils all. */
  function Collect(pairs: seq<string>): Option<map<string, string>> {
    if pairs == [] then Some(map[])
    else
      var n := |pairs| - 1;
      match (Collect(pairs[..n]), ParsePair(pairs[n]))
      case (Some(m), Some((k, v))) => Some(m[k := v])
      case _ => None
  }

  function DecodeStringToMap(raw: string): Option<map<string, string>> {
    Collect(Split(Trim(raw), ','))
  }

  // ----- trimming before or after splitting

  /** The same number of pieces, equal once trimmed. */
  ghost predicate SameTrimmed(a: seq<string>, b: seq<string>) {
    |a| == |b| && forall k :: 0 <= k < |a| ==> Trim(a[k]) == Trim(b[k])
  }

  lemma {:induction false} CollectTrimmed(a: seq<string>, b: seq<string>)
    requires SameTrimmed(a, b)
    ensures Collect(a) == Collect(b)
  {
    if a != [] {
      var n := |a| - 1;
      assert SameTrimmed(a[..n], b[..n]);
      CollectTrimmed(a[..n], b[..n]);
      assert Trim(a[n]) == Trim(b[n]);
    }
  }

  lemma {:induction false} TrimStartPieces(s: string)
    ensures SameTrimmed(Split(TrimStart(s), ','), Split(s, ','))
  {
    if s != [] && IsSpace(s[0]) {
      TrimStartPieces(s[1..]);
      var rest := Split(s[1..], ',');
      assert ([s[0]] + rest[0])[1..] == rest[0];
      assert Trim([s[0]] + rest[0]) == Trim(rest[0]);
    }
  }

  /** A character at the end of the last piece. */
  function ExtendLast(pieces: seq<string>, c: char): (extended: seq<string>)
    requires pieces != []
    ensures extended != []
  {
    pieces[..|pieces| - 1] + [pieces[|pieces| - 1] + [c]]
  }

  lemma ExtendAfterPiece(piece: string, rest: seq<string>, c: char)
    requires rest != []
    ensures ExtendLast([piece] + rest, c) == [piece] + ExtendLast(rest, c)
  {
  }

  lemma ExtendAfterFirst(first: char, rest: seq<string>, c: char)
    requires rest != []
    ensures ExtendLast([[first] + rest[0]] + rest[1..], c) ==
            [[first] + ExtendLast(rest, c)[0]] + ExtendLast(rest, c)[1..]
  {
    if |rest| == 1 {
      assert [first] + (rest[0] + [c]) == ([first] + rest[0]) + [c];
    } else {
      ExtendAfterPiece([first] + rest[0], rest[1..], c);
      assert [rest[0]] + rest[1..] == rest;
      ExtendAfterPiece(rest[0], rest[1..], c);
    }
  }

  /** A last character that is no separator joins the last piece. */
  lemma {:induction false} SplitSnoc(s: string, c: char, sep: char)
    requires c != sep
    ensures Split(s + [c], sep) == ExtendLast(Split(s, sep), c)
  {
    if s == [] {
      assert s + [c] == [c] && [c][1..] == s && [c] + s == [c];
      assert Split(s, sep) == [s];
      assert [s][..0] + [s + [c]] == [[c]] == [[c] + s] + [s][1..];
    } else {
      SplitSnoc(s[1..], c, sep);
      assert (s + [c])[1..] == s[1..] + [c];
      var rest := Split(s[1..], sep);
      ExtendAfterPiece([], rest, c);
      ExtendAfterFirst(s[0], rest, c);
    }
  }

  lemma {:induction false} TrimStartSnoc(s: string, c: char)
    requires IsSpace(c)
    ensures TrimStart(s + [c]) == if TrimStart(s) == [] then [] else TrimStart(s) + [c]
  {
    if s == [] {
      assert (s + [c])[1..] == [];
    } else if IsSpace(s[0]) {
      TrimStartSnoc(s[1..], c);
      assert (s + [c])[1..] == s[1..] + [c];
    }
  }

  lemma TrimSnocSpace(s: string, c: char)
    requires IsSpace(c)
    ensures Trim(s + [c]) == Trim(s)
  {
    TrimStartSnoc(s, c);
    var t := TrimStart(s);
    assert (t + [c])[..|t|] == t;
  }

  lemma {:induction false} TrimEndPieces(s: string)
    ensures SameTrimmed(Split(TrimEnd(s), ','), Split(s, ','))
  {
    if s != [] && IsSpace(s[|s| - 1]) {
      var init, c := s[..|s| - 1], s[|s| - 1];
      TrimEndPieces(init);
      var pieces := Split(init, ',');
      assert Split(s, ',') == ExtendLast(pieces, c) by {
        assert s == init + [c];
        SplitSnoc(init, c, ',');
      }
      SpaceInLastPiece(Split(TrimEnd(s), ','), pieces, c);
    } else {
      assert TrimEnd(s) == s;
    }
  }

  lemma SpaceInLastPiece(a: seq<string>, pieces: seq<string>, c: char)
    requires SameTrimmed(a, pieces) && pieces != [] && IsSpace(c)
    ensures SameTrimmed(a, ExtendLast(pieces, c))
  {
    TrimSnocSpace(pieces[|pieces| - 1], c);
  }

  /** Trimming the whole text first changes no pair. */
  lemma TrimFirstIrrelevant(raw: string)
    ensures DecodeStringToMap(raw) == Collect(Split(raw, ','))
  {
    TrimStartPieces(raw);
    TrimEndPieces(TrimStart(raw));
    CollectTrimmed(Split(Trim(raw), ','), Split(TrimStart(raw), ','));
    CollectTrimmed(Split(TrimStart(raw), ','), Split(raw, ','));
  }

  // ----- splitting undoes joining

  lemma {:induction false} SplitOne(s: string, sep: char)
    requires sep !in s
    ensures Split(s, sep) == [s]
  {
    if s != [] {
      SplitOne(s[1..], sep);
      assert [s[0]] + s[1..] == s;
      assert [s[1..]][1..] == [];
    }
  }

  lemma {:induction false} SplitAfter(s: string, sep: char, rest: string)
    requires sep !in s
    ensures Split(s + [sep] + rest, sep) == [s] + Split(rest, sep)
  {
    var t := s + [sep] + rest;
    if s == [] {
      assert t[1..] == rest;
    } else {
      SplitAfter(s[1..], sep, rest);
      assert t[1..] == s[1..] + [sep] + rest;
      assert [s[0]] + s[1..] == s;
    }
  }

  lemma {:induction false} SplitJoin(pieces: seq<string>, sep: char)
    requires pieces != [] && forall k :: 0 <= k < |pieces| ==> sep !in pieces[k]
    ensures Split(Join(pieces, sep), sep) == pieces
  {
    if |pieces| == 1 {
      SplitOne(pieces[0], sep);
    } else {
      SplitJoin(pieces[1..], sep);
      SplitAfter(pieces[0], sep, Join(pieces[1..], sep));
    }
  }

  // ----- decoding what was printed

  /** Free of separators, and the key does not begin with white space. */
  predicate Splittable(e: Entry) {
    && ',' !in e.0 && '=' !in e.0 && ',' !in e.1 && '=' !in e.1
    && (e.0 != [] ==> !IsSpace(e.0[0]))
  }

  /** An entry that survives: besides that, the value does not end in white space. */
  predicate Clean(e: Entry) {
    Splittable(e) && (e.1 != [] ==> !IsSpace(e.1[|e.1| - 1]))
  }

  predicate DistinctKeys(entries: seq<Entry>) {
    forall k, l :: 0 <= k < l < |entries| ==> entries[k].0 != entries[l].0
  }

  function MapOf(entries: seq<Entry>): map<string, string> {
    if entries == [] then map[]
    else
      var n := |entries| - 1;
      MapOf(entries[..n])[entries[n].0 := entries[n].1]
  }

  function TrimValues(entries: seq<Entry>): seq<Entry> {
    seq(|entries|, i requires 0 <= i < |entries| => (entries[i].0, TrimEnd(entries[i].1)))
  }

  lemma {:induction false} TrimEndOfPair(prefix: string, v: string)
    requires prefix != [] && !IsSpace(prefix[|prefix| - 1])
    ensures TrimEnd(prefix + v) == prefix + TrimEnd(v)
  {
    if v == [] {
      assert prefix + v == prefix;
    } else {
      var n := |v| - 1;
      assert (prefix + v)[..|prefix| + n] == prefix + v[..n];
      if IsSpace(v[n]) {
        TrimEndOfPair(prefix, v[..n]);
      }
    }
  }

  lemma {:induction false} TrimEndKeeps(s: string)
    ensures TrimEnd(s) <= s
    ensures TrimEnd(s) == s <==> s == [] || !IsSpace(s[|s| - 1])
  {
    if s != [] && IsSpace(s[|s| - 1]) {
      TrimEndKeeps(s[..|s| - 1]);
    }
  }

  lemma ParsePrintedPair(e: Entry)
    requires Splittable(e)
    ensures ParsePair(PairText(e)) == Some((e.0, TrimEnd(e.1)))
  {
    var (k, v) := e;
    var text := PairText(e);
    assert text[0] == if k == [] then '=' else k[0];
    assert TrimStart(text) == text;
    assert text == (k + ['=']) + v;
    TrimEndOfPair(k + ['='], v);
    TrimEndKeeps(v);
    SplitOne(TrimEnd(v), '=');
    SplitAfter(k, '=', TrimEnd(v));
    assert Trim(text) == k + ['='] + TrimEnd(v);
  }

  lemma {:induction false} CollectPrinted(entries: seq<Entry>)
    requires forall k :: 0 <= k < |entries| ==> Splittable(entries[k])
    ensures Collect(Pairs(entries)) == Some(MapOf(TrimValues(entries)))
  {
    if entries != [] {
      var n := |entries| - 1;
      CollectPrinted(entries[..n]);
      assert Pairs(entries)[..n] == Pairs(entries[..n]);
      assert TrimValues(entries)[..n] == TrimValues(entries[..n]);
      ParsePrintedPair(entries[n]);
    }
  }

  lemma DecodePrinted(entries: seq<Entry>)
    requires entries != [] && forall k :: 0 <= k < |entries| ==> Splittable(entries[k])
    ensures DecodeStringToMap(FormatCommaSeparated(entries)) == Some(MapOf(TrimValues(entries)))
  {
    TrimFirstIrrelevant(FormatCommaSeparated(entries));
    forall k | 0 <= k < |entries|
      ensures ',' !in Pairs(entries)[k]
    {
      assert Splittable(entries[k]);
    }
    SplitJoin(Pairs(entries), ',');
    CollectPrinted(entries);
  }

  // ----- nothing else can be decoded

  lemma {:induction false} PiecesAvoidSeparator(s: string, sep: char)
    ensures forall k :: 0 <= k < |Split(s, sep)| ==> sep !in Split(s, sep)[k]
    ensures forall k, c :: 0 <= k < |Split(s, sep)| && c in Split(s, sep)[k] ==> c in s
    ensures Split(s, sep)[0] <= s
  {
    if s != [] {
      PiecesAvoidSeparator(s[1..], sep);
      var rest, pieces := Split(s[1..], sep), Split(s, sep);
      forall k, c | 0 <= k < |pieces| && c in pieces[k]
        ensures c in s
      {
        if s[0] == sep {
          assert k >= 1 && pieces[k] == rest[k - 1];
          assert c in s[1..];
        } else if k == 0 {
          assert pieces[0] == [s[0]] + rest[0];
          assert c == s[0] || c in rest[0];
        } else {
          assert pieces[k] == rest[k];
          assert c in s[1..];
        }
      }
    }
  }

  lemma {:induction false} TrimStartKeeps(s: string)
    ensures TrimStart(s) != [] ==> !IsSpace(TrimStart(s)[0])
    ensures forall c :: c in TrimStart(s) ==> c in s
  {
    if s != [] && IsSpace(s[0]) {
      TrimStartKeeps(s[1..]);
    }
  }

  /** A decoded entry never holds a separator, and its key never begins with white space. */
  lemma ParsedPairIsSplittable(pair: string)
    requires ',' !in pair && ParsePair(pair).Some?
    ensures Splittable(ParsePair(pair).value)
  {
    var t := Trim(pair);
    TrimStartKeeps(pair);
    TrimEndKeeps(TrimStart(pair));
    PiecesAvoidSeparator(t, '=');
    assert t <= TrimStart(pair);
    assert forall c :: c in t ==> c in pair;
    var parts := Split(t, '=');
    assert parts[0] <= t;
    assert ',' !in parts[0] && ',' !in parts[1];
  }

  lemma {:induction false} CollectedAreSplittable(pairs: seq<string>)
    requires forall k :: 0 <= k < |pairs| ==> ',' !in pairs[k]
    requires Collect(pairs).Some?
    ensures forall key :: key in Collect(pairs).value ==> Splittable((key, Collect(pairs).value[key]))
  {
    if pairs != [] {
      var n := |pairs| - 1;
      CollectedAreSplittable(pairs[..n]);
      ParsedPairIsSplittable(pairs[n]);
    }
  }

  lemma {:induction false} MapOfDistinct(entries: seq<Entry>)
    requires DistinctKeys(entries)
    ensures forall k :: 0 <= k < |entries| ==>
              entries[k].0 in MapOf(entries) && MapOf(entries)[entries[k].0] == entries[k].1
  {
    if entries != [] {
      var n := |entries| - 1;
      MapOfDistinct(entries[..n]);
      forall k | 0 <= k < n
        ensures entries[k].0 in MapOf(entries) && MapOf(entries)[entries[k].0] == entries[k].1
      {
        assert entries[..n][k] == entries[k];
      }
    }
  }

  /**
    Printing and parsing undo each other exactly on the nonempty maps whose keys
    and values hold no separator, whose keys do not begin and whose values do
    not end with white space.
   */
  lemma RoundTripIff(entries: seq<Entry>)
    requires DistinctKeys(entries)
    ensures DecodeStringToMap(FormatCommaSeparated(entries)) == Some(MapOf(entries)) <==>
            entries != [] && forall k :: 0 <= k < |entries| ==> Clean(entries[k])
  {
    if entries == [] {
      EmptyDoesNotDecode();
    } else {
      if DecodeStringToMap(FormatCommaSeparated(entries)) == Some(MapOf(entries)) {
        DecodedEntriesAreClean(entries);
      }
      if forall k :: 0 <= k < |entries| ==> Clean(entries[k]) {
        CleanEntriesDecode(entries);
      }
    }
  }

  lemma CleanEntriesDecode(entries: seq<Entry>)
    requires entries != [] && forall k :: 0 <= k < |entries| ==> Clean(entries[k])
    ensures DecodeStringToMap(FormatCommaSeparated(entries)) == Some(MapOf(entries))
  {
    assert TrimValues(entries) == entries by {
      forall k | 0 <= k < |entries|
        ensures TrimValues(entries)[k] == entries[k]
      {
        assert Clean(entries[k]);
        TrimEndKeeps(entries[k].1);
      }
    }
    DecodePrinted(entries);
  }

  lemma EmptyDoesNotDecode()
    ensures DecodeStringToMap(FormatCommaSeparated([])).None?
  {
    var empty: string := [];
    assert Pairs([]) == [];
    assert Trim(empty) == empty;
    assert Split(empty, ',') == [empty] && Split(empty, '=') == [empty];
    assert ParsePair(empty).None?;
  }

  lemma DecodedEntriesAreSplittable(entries: seq<Entry>, k: nat)
    requires DistinctKeys(entries) && k < |entries|
    requires DecodeStringToMap(FormatCommaSeparated(entries)) == Some(MapOf(entries))
    ensures Splittable(entries[k])
  {
    var raw := FormatCommaSeparated(entries);
    TrimFirstIrrelevant(raw);
    PiecesAvoidSeparator(raw, ',');
    CollectedAreSplittable(Split(raw, ','));
    MapOfDistinct(entries);
    assert Splittable((entries[k].0, MapOf(entries)[entries[k].0]));
  }

  /** With the same map after trimming every value, no value had anything to trim. */
  lemma NothingToTrim(entries: seq<Entry>, k: nat)
    requires DistinctKeys(entries) && k < |entries| && MapOf(TrimValues(entries)) == MapOf(entries)
    ensures TrimEnd(entries[k].1) == entries[k].1
  {
    var trimmed := TrimValues(entries);
    assert DistinctKeys(trimmed);
    MapOfDistinct(trimmed);
    MapOfDistinct(entries);
    assert trimmed[k] == (entries[k].0, TrimEnd(entries[k].1));
  }

  lemma DecodedKeepsMap(entries: seq<Entry>)
    requires entries != [] && forall k :: 0 <= k < |entries| ==> Splittable(entries[k])
    requires DecodeStringToMap(FormatCommaSeparated(entries)) == Some(MapOf(entries))
    ensures MapOf(TrimValues(entries)) == MapOf(entries)
  {
    DecodePrinted(entries);
  }

  lemma TrimmedAreClean(entries: seq<Entry>, k: nat)
    requires DistinctKeys(entries) && k < |entries| && MapOf(TrimValues(entries)) == MapOf(entries)
    requires Splittable(entries[k])
    ensures Clean(entries[k])
  {
    NothingToTrim(entries, k);
    CleanFromTrimmed(entries[k]);
  }

  lemma DecodedEntriesAreClean(entries: seq<Entry>)
    requires DistinctKeys(entries) && entries != []
    requires DecodeStringToMap(FormatCommaSeparated(entries)) == Some(MapOf(entries))
    ensures forall k :: 0 <= k < |entries| ==> Clean(entries[k])
  {
    forall k | 0 <= k < |entries|
      ensures Splittable(entries[k])
    {
      DecodedEntriesAreSplittable(entries, k);
    }
    DecodedKeepsMap(entries);
    forall k | 0 <= k < |entries|
      ensures Clean(entries[k])
    {
      TrimmedAreClean(entries, k);
    }
  }

  lemma CleanFromTrimmed(e: Entry)
    requires Splittable(e) && TrimEnd(e.1) == e.1
    ensures Clean(e)
  {
    TrimEndKeeps(e.1);
  }

  // ----- what decoding makes of any text

  predicate AllSpace(s: string) {
    forall k :: 0 <= k < |s| ==> IsSpace(s[k])
  }

  lemma {:induction false} TrimStartIs(s: string) returns (i: nat)
    ensures i <= |s| && TrimStart(s) == s[i..] && AllSpace(s[..i]) && (i < |s| ==> !IsSpace(s[i]))
  {
    if s != [] && IsSpace(s[0]) {
      var j := TrimStartIs(s[1..]);
      i := j + 1;
      assert s[1..][j..] == s[i..];
      assert forall k :: 0 < k < i ==> s[..i][k] == s[1..][..j][k - 1];
    } else {
      i := 0;
    }
  }

  lemma {:induction false} TrimEndIs(s: string) returns (j: nat)
    ensures j <= |s| && TrimEnd(s) == s[..j] && AllSpace(s[j..]) && (j > 0 ==> !IsSpace(s[j - 1]))
  {
    if s != [] && IsSpace(s[|s| - 1]) {
      var n := |s| - 1;
      j := TrimEndIs(s[..n]);
      assert s[..n][..j] == s[..j];
      assert forall k :: 0 <= k < n - j ==> s[j..][k] == s[..n][j..][k];
    } else {
      j := |s|;
    }
  }

  /** Trimming takes away exactly the white space at both ends. */
  lemma TrimIs(s: string) returns (i: nat, j: nat)
    ensures i <= j <= |s| && Trim(s) == s[i..j] && AllSpace(s[..i]) && AllSpace(s[j..])
    ensures i < j ==> !IsSpace(s[i]) && !IsSpace(s[j - 1])
  {
    i := TrimStartIs(s);
    var t := s[i..];
    var n := TrimEndIs(t);
    j := i + n;
    assert t[..n] == s[i..j] && t[n..] == s[j..];
    assert n > 0 ==> t[0] == s[i] && t[n - 1] == s[j - 1];
  }

  /** The pieces of a text, joined again, are the text; none of them has the separator. */
  lemma {:induction false} JoinSplit(s: string, sep: char)
    ensures Join(Split(s, sep), sep) == s
    ensures forall k :: 0 <= k < |Split(s, sep)| ==> sep !in Split(s, sep)[k]
  {
    if s != [] {
      var rest := Split(s[1..], sep);
      JoinSplit(s[1..], sep);
      assert s == [s[0]] + s[1..];
      if s[0] == sep {
        assert ([[]] + rest)[1..] == rest;
      } else {
        var first := [s[0]] + rest[0];
        assert ([first] + rest[1..])[1..] == rest[1..];
        JoinFirst(s[0], rest, sep);
      }
    }
  }

  lemma JoinFirst(c: char, rest: seq<string>, sep: char)
    requires rest != []
    ensures Join([[c] + rest[0]] + rest[1..], sep) == [c] + Join(rest, sep)
  {
    var pieces := [[c] + rest[0]] + rest[1..];
    assert pieces[1..] == rest[1..];
    if |rest| > 1 {
      assert [c] + (rest[0] + [sep] + Join(rest[1..], sep)) == ([c] + rest[0]) + [sep] + Join(rest[1..], sep);
    }
  }

  /** The trimmed pair reads key=value, perhaps followed by another = and more. */
  predicate PairSays(pair: string, k: string, v: string) {
    && '=' !in k && '=' !in v
    && (Trim(pair) == k + ['='] + v || k + ['='] + v + ['='] <= Trim(pair))
  }

  /** The first two parts of a text, seen from the parts. */
  lemma PartsSay(t: string, parts: seq<string>)
    requires |parts| >= 2 && Join(parts, '=') == t
    ensures t == parts[0] + ['='] + parts[1] || parts[0] + ['='] + parts[1] + ['='] <= t
  {
    var rest := parts[1..];
    var joined := Join(rest, '=');
    assert t == parts[0] + ['='] + joined;
    assert rest[0] == parts[1];
    if |rest| > 1 {
      assert joined == parts[1] + ['='] + Join(rest[1..], '=');
      FirstTwo(parts[0], parts[1], Join(rest[1..], '='));
    }
  }

  lemma FirstTwo(a: string, b: string, c: string)
    ensures a + ['='] + b + ['='] <= a + ['='] + (b + ['='] + c)
  {
    assert a + ['='] + (b + ['='] + c) == (a + ['='] + b + ['=']) + c;
  }

  /** And from the text. */
  lemma TextSplits(t: string, k: string, v: string)
    requires '=' !in k && '=' !in v && (t == k + ['='] + v || k + ['='] + v + ['='] <= t)
    ensures |Split(t, '=')| >= 2 && Split(t, '=')[0] == k && Split(t, '=')[1] == v
  {
    if t == k + ['='] + v {
      SplitAfter(k, '=', v);
      SplitOne(v, '=');
    } else {
      var rest := t[|k| + 1 + |v| + 1..];
      assert t == k + ['='] + (v + ['='] + rest);
      SplitAfter(k, '=', v + ['='] + rest);
      SplitAfter(v, '=', rest);
    }
  }

  lemma ParsePairIff(pair: string, k: string, v: string)
    ensures ParsePair(pair) == Some((k, v)) <==> PairSays(pair, k, v)
  {
    var t := Trim(pair);
    JoinSplit(t, '=');
    if ParsePair(pair) == Some((k, v)) {
      PartsSay(t, Split(t, '='));
    }
    if PairSays(pair, k, v) {
      TextSplits(t, k, v);
    }
  }

  /** The last pair with the key gives it the value. */
  ghost predicate LastSays(pairs: seq<string>, k: string, v: string) {
    exists i :: 0 <= i < |pairs| && PairSays(pairs[i], k, v)
             && forall j, w :: i < j < |pairs| ==> !PairSays(pairs[j], k, w)
  }

  ghost predicate IsPair(pair: string) {
    exists k, v :: PairSays(pair, k, v)
  }

  lemma {:induction false} CollectIff(pairs: seq<string>)
    ensures Collect(pairs).Some? <==> forall i :: 0 <= i < |pairs| ==> IsPair(pairs[i])
    ensures Collect(pairs).Some? ==>
              forall k, v :: k in Collect(pairs).value && Collect(pairs).value[k] == v <==> LastSays(pairs, k, v)
  {
    if pairs != [] {
      var n := |pairs| - 1;
      var last := ParsePair(pairs[n]);
      CollectIff(pairs[..n]);
      forall k, v
        ensures last == Some((k, v)) <==> PairSays(pairs[n], k, v)
      {
        ParsePairIff(pairs[n], k, v);
      }
      assert last.Some? <==> IsPair(pairs[n]) by {
        if last.Some? {
          assert PairSays(pairs[n], last.value.0, last.value.1);
        }
      }
      assert forall i :: 0 <= i < n ==> pairs[..n][i] == pairs[i];
      forall k, v | last.Some?
        ensures LastSays(pairs, k, v) <==> if last.value.0 == k then last.value.1 == v else LastSays(pairs[..n], k, v)
      {
        LastSaysSnoc(pairs, pairs[n], last.value.0, last.value.1, k, v);
      }
    }
  }

  lemma LastSaysSnoc(pairs: seq<string>, pair: string, k0: string, v0: string, k: string, v: string)
    requires pairs != [] && pairs[|pairs| - 1] == pair
    requires forall x, y :: PairSays(pair, x, y) <==> x == k0 && y == v0
    ensures LastSays(pairs, k, v) <==> if k0 == k then v0 == v else LastSays(pairs[..|pairs| - 1], k, v)
  {
    var n := |pairs| - 1;
    assert forall i :: 0 <= i < n ==> pairs[..n][i] == pairs[i];
    if k0 == k {
      assert PairSays(pairs[n], k, v0);
    } else {
      if LastSays(pairs[..n], k, v) {
        var i :| 0 <= i < n && PairSays(pairs[..n][i], k, v)
              && forall j, w :: i < j < n ==> !PairSays(pairs[..n][j], k, w);
        assert forall j, w :: i < j <= n ==> !PairSays(pairs[j], k, w);
      }
      if LastSays(pairs, k, v) {
        var i :| 0 <= i <= n && PairSays(pairs[i], k, v) && forall j, w :: i < j <= n ==> !PairSays(pairs[j], k, w);
        assert PairSays(pairs[..n][i], k, v);
        assert forall j, w :: i < j < n ==> !PairSays(pairs[..n][j], k, w);
      }
    }
  }

  /**
    Any text decodes exactly if each of its comma-separated pieces is a pair, and
    then to the map in which each key has the value of the last pair with it.
   */
  lemma DecodeIff(pieces: seq<string>)
    requires pieces != [] && forall i :: 0 <= i < |pieces| ==> ',' !in pieces[i]
    ensures var decoded := DecodeStringToMap(Join(pieces, ','));
            && (decoded.Some? <==> forall i :: 0 <= i < |pieces| ==> IsPair(pieces[i]))
            && (decoded.Some? ==>
                  forall k, v :: k in decoded.value && decoded.value[k] == v <==> LastSays(pieces, k, v))
  {
    TrimFirstIrrelevant(Join(pieces, ','));
    SplitJoin(pieces, ',');
    CollectIff(pieces);
  }
}
