/** The legend parser of the data agent: a README lists animal codes as lines
    such as `1234 = Melkekyr`, and the agent collects every `code = name`
    pair that the regular expression `(\d+)\s*=\s*(.+)` finds, scanning the
    text left to right as `re.findall` does. */
module LegendCodes {
  import opened Wrappers
  import opened Text

  /** The two groups of one match, as `re.findall` reports them. */
  datatype Entry = Entry(code: string, name: string)

  /** Where the parts of one match lie in the text, for a match starting at
      some position `i`: `[i, digitsEnd)` is `(\d+)`, `[digitsEnd, equals)` the
      first `\s*`, `equals` the `=`, `[equals + 1, nameStart)` the second `\s*`
      and `[nameStart, nameEnd)` the group `(.+)`. */
  datatype Span = Span(digitsEnd: nat, equals: nat, nameStart: nat, nameEnd: nat)

  /** `.` matches every character but a line feed. */
  predicate LineCharsIn(text: string, lo: nat, hi: nat)
    requires lo <= hi <= |text|
  {
    forall k :: lo <= k < hi ==> text[k] != '\n'
  }

  /** A string `.` can match character by character: one line of text. */
  predicate NoNewline(s: string) {
    LineCharsIn(s, 0, |s|)
  }

  /** `\d` matches every character of `text[lo..hi]`. */
  predicate DigitsIn(text: string, lo: nat, hi: nat)
    requires lo <= hi <= |text|
  {
    forall k :: lo <= k < hi ==> IsDigit(text[k])
  }

  /** `DigitsIn` is `AllDigits` of the slice, stated over positions of the text. */
  lemma {:induction false} DigitsInIsAllDigits(text: string, lo: nat, hi: nat)
    requires lo <= hi <= |text|
    ensures DigitsIn(text, lo, hi) <==> AllDigits(text[lo..hi])
  {
    forall k | lo <= k < hi ensures text[lo..hi][k - lo] == text[k] {}
  }

  /** `s` is one way for `(\d+)\s*=\s*(.+)` to match `text` from position `i`. */
  predicate Fits(text: string, i: nat, s: Span) {
    && i < s.digitsEnd <= s.equals < |text|
    && s.equals < s.nameStart < s.nameEnd <= |text|
    && DigitsIn(text, i, s.digitsEnd)
    && SpacesIn(text, s.digitsEnd, s.equals)
    && text[s.equals] == '='
    && SpacesIn(text, s.equals + 1, s.nameStart)
    && LineCharsIn(text, s.nameStart, s.nameEnd)
  }

  /** The end of the longest run of digits from `i`. */
  function DigitRunEnd(text: string, i: nat): (j: nat)
    requires i <= |text|
    ensures i <= j <= |text| && DigitsIn(text, i, j)
    ensures j == |text| || !IsDigit(text[j])
    decreases |text| - i
  {
    if i < |text| && IsDigit(text[i]) then DigitRunEnd(text, i + 1) else i
  }

  /** The end of the line holding position `i`: the next line feed, or the end of the text. */
  function LineEnd(text: string, i: nat): (j: nat)
    requires i <= |text|
    ensures i <= j <= |text| && LineCharsIn(text, i, j)
    ensures j == |text| || text[j] == '\n'
    decreases |text| - i
  {
    if i < |text| && text[i] != '\n' then LineEnd(text, i + 1) else i
  }

  /** The last position in `[lo, hi)` that is not a line feed, if there is one. */
  function LastLineChar(text: string, lo: nat, hi: nat): (r: Option<nat>)
    requires lo <= hi <= |text|
    ensures r.Some? ==> lo <= r.value < hi && text[r.value] != '\n'
    ensures r.Some? ==> forall k :: r.value < k < hi ==> text[k] == '\n'
    ensures r.None? ==> forall k :: lo <= k < hi ==> text[k] == '\n'
    decreases hi
  {
    if hi <= lo then None
    else if text[hi - 1] != '\n' then Some(hi - 1)
    else LastLineChar(text, lo, hi - 1)
  }

  /** The match of `(\d+)\s*=\s*(.+)` at position `i`, chosen as the
      backtracking engine chooses it: the digit run and the first `\s*` are
      forced; the second `\s*` is as long as still leaves one character
      for `(.+)`, and `(.+)` then runs to the end of the line. */
  function MatchAt(text: string, i: nat): (r: Option<Span>)
    requires i <= |text|
    ensures r.Some? ==> i < r.value.digitsEnd <= r.value.equals < r.value.nameStart <= |text|
    ensures r.Some? ==> IsDigit(text[i]) && text[r.value.equals] == '='
  {
    if i == |text| || !IsDigit(text[i]) then None
    else
      var d := DigitRunEnd(text, i);
      var e := SkipSpaces(text, d);
      if e == |text| || text[e] != '=' then None
      else
        var q := SkipSpaces(text, e + 1);
        var start := if q < |text| then Some(q) else LastLineChar(text, e + 1, q);
        match start
        case None => None
        case Some(n) => Some(Span(d, e, n, LineEnd(text, n)))
  }

  /** Every way to match from `i` takes the whole run of digits and the whole
      run of whitespace after it: `=` is neither a digit nor whitespace. */
  lemma {:induction false} FitsForced(text: string, i: nat, s: Span)
    requires Fits(text, i, s)
    ensures s.digitsEnd == DigitRunEnd(text, i)
    ensures s.equals == SkipSpaces(text, s.digitsEnd)
  {
    var d := DigitRunEnd(text, i);
    assert !IsSpace('=') && !IsDigit('=');
    assert !IsDigit(text[s.digitsEnd]);
    assert forall k :: i <= k < s.digitsEnd ==> IsDigit(text[k]);
    assert forall k :: i <= k < d ==> IsDigit(text[k]);
    var e := SkipSpaces(text, d);
    assert forall k :: d <= k < s.equals ==> IsSpace(text[k]);
    assert forall k :: d <= k < e ==> IsSpace(text[k]);
  }

  /** What `MatchAt` reports is a way for the pattern to match at `i`. */
  lemma {:induction false} MatchAtSound(text: string, i: nat)
    requires i <= |text|
    ensures MatchAt(text, i).Some? ==> Fits(text, i, MatchAt(text, i).value)
  {
    if i < |text| && IsDigit(text[i]) {
      var d := DigitRunEnd(text, i);
      var e := SkipSpaces(text, d);
      if e < |text| && text[e] == '=' {
        var q := SkipSpaces(text, e + 1);
        if q < |text| {
          assert !IsSpace(text[q]);
        } else {
          var start := LastLineChar(text, e + 1, q);
          if start.Some? {
            assert forall k :: e + 1 <= k < start.value ==> IsSpace(text[k]);
          }
        }
      }
    }
  }

  /** Whenever the pattern can match at `i`, `MatchAt` finds a match there,
      and it is the one backtracking tries first: the same digit run and `=`,
      then the longest second `\s*`, then the longest `(.+)`. */
  lemma {:induction false} MatchAtFirstChoice(text: string, i: nat, s: Span)
    requires i <= |text| && Fits(text, i, s)
    ensures MatchAt(text, i).Some?
    ensures var r := MatchAt(text, i).value;
      && s.digitsEnd == r.digitsEnd
      && s.equals == r.equals
      && (s.nameStart < r.nameStart || (s.nameStart == r.nameStart && s.nameEnd <= r.nameEnd))
  {
    FitsForced(text, i, s);
    var e := s.equals;
    var q := SkipSpaces(text, e + 1);
    assert text[s.nameStart] != '\n';
    var start := if q < |text| then Some(q) else LastLineChar(text, e + 1, q);
    assert start.Some? && s.nameStart <= start.value;
    var n := start.value;
    if s.nameStart == n {
      var le := LineEnd(text, n);
      assert s.nameEnd <= le;
    }
  }

  /** `re.findall` from position `pos`: try a match at each position in turn,
      report it and resume where it ended, or move one character on. */
  function Scan(text: string, pos: nat): (es: seq<Entry>)
    requires pos <= |text|
    ensures forall k :: 0 <= k < |es| ==>
      es[k].code != [] && AllDigits(es[k].code) && es[k].name != [] && NoNewline(es[k].name)
    decreases |text| - pos
  {
    if pos == |text| then []
    else
      match MatchAt(text, pos)
      case None => Scan(text, pos + 1)
      case Some(s) =>
        MatchAtSound(text, pos);
        assert AllDigits(text[pos..s.digitsEnd]);
        assert NoNewline(text[s.nameStart..s.nameEnd]);
        [Entry(text[pos..s.digitsEnd], text[s.nameStart..s.nameEnd])] + Scan(text, s.nameEnd)
  }

  /** `re.findall(r'(\d+)\s*=\s*(.+)', text)`. */
  function FindAll(text: string): (es: seq<Entry>)
    ensures forall k :: 0 <= k < |es| ==> AllDigits(es[k].code) && NoNewline(es[k].name)
  {
    Scan(text, 0)
  }

  /** The scan reports the leftmost match first and resumes right after it. */
  lemma {:induction false} ScanLeftmost(text: string, pos: nat, j: nat)
    requires pos <= j < |text|
    requires MatchAt(text, j).Some?
    requires forall k :: pos <= k < j ==> MatchAt(text, k).None?
    ensures var s := MatchAt(text, j).value;
      Scan(text, pos) == [Entry(text[j..s.digitsEnd], text[s.nameStart..s.nameEnd])] + Scan(text, s.nameEnd)
    decreases j - pos
  {
    if pos < j {
      ScanLeftmost(text, pos + 1, j);
    }
  }

  /** A position at which no match starts contributes nothing. */
  lemma {:induction false} ScanNothing(text: string, pos: nat)
    requires pos <= |text|
    requires forall k :: pos <= k < |text| ==> MatchAt(text, k).None?
    ensures Scan(text, pos) == []
    decreases |text| - pos
  {
    if pos < |text| {
      ScanNothing(text, pos + 1);
    }
  }

  /** A legend line written as `code = name` is read back as that pair, when
      the code is digits and the name is one line that starts with a
      non-space character. */
  lemma {:induction false} LegendLineRoundTrip(code: string, name: string)
    requires code != [] && AllDigits(code)
    requires name != [] && NoNewline(name) && !IsSpace(name[0])
    ensures FindAll(code + " = " + name) == [Entry(code, name)]
  {
    var text := code + " = " + name;
    var n := |code|;
    assert DigitRunEnd(text, 0) == n by {
      assert DigitsIn(text, 0, n);
      assert !IsDigit(text[n]);
      DigitRunEndIs(text, 0, n);
    }
    assert SkipSpaces(text, n) == n + 1 by {
      assert text[n + 1] == '=';
      SkipSpacesIs(text, n, n + 1);
    }
    assert SkipSpaces(text, n + 2) == n + 3 by {
      assert text[n + 3] == name[0];
      SkipSpacesIs(text, n + 2, n + 3);
    }
    assert LineEnd(text, n + 3) == |text| by {
      assert LineCharsIn(text, n + 3, |text|);
      LineEndIs(text, n + 3);
    }
    assert MatchAt(text, 0) == Some(Span(n, n + 1, n + 3, |text|));
    assert text[0..n] == code && text[n + 3..|text|] == name;
    assert Scan(text, |text|) == [];
    assert Scan(text, 0) == [Entry(text[0..n], text[n + 3..|text|])] + Scan(text, |text|);
  }

  lemma {:induction false} DigitRunEndIs(text: string, i: nat, j: nat)
    requires i <= j <= |text| && DigitsIn(text, i, j)
    requires j == |text| || !IsDigit(text[j])
    ensures DigitRunEnd(text, i) == j
    decreases j - i
  {
    if i < j {
      DigitRunEndIs(text, i + 1, j);
    }
  }

  lemma {:induction false} SkipSpacesIs(text: string, i: nat, j: nat)
    requires i <= j <= |text| && SpacesIn(text, i, j)
    requires j == |text| || !IsSpace(text[j])
    ensures SkipSpaces(text, i) == j
    decreases j - i
  {
    if i < j {
      SkipSpacesIs(text, i + 1, j);
    }
  }

  lemma {:induction false} LineEndIs(text: string, i: nat)
    requires i <= |text| && LineCharsIn(text, i, |text|)
    ensures LineEnd(text, i) == |text|
    decreases |text| - i
  {
    if i < |text| {
      LineEndIs(text, i + 1);
    }
  }

  /** No later entry carries the same code as entry `i`. */
  predicate LastWithCode(es: seq<Entry>, i: nat)
    requires i < |es|
  {
    forall j :: i < j < |es| ==> es[j].code != es[i].code
  }

  /** No key after position `j`, up to `n`, equals key `j`. */
  predicate LastBefore(keys: seq<string>, j: nat, n: nat)
    requires j < n <= |keys|
  {
    forall l :: j < l < n ==> keys[l] != keys[j]
  }

  /** What a dictionary holds after `d[keys[j]] = vals[j]` ran for each `j < n`
      in turn: the keys seen, each with the value it was stored with last. */
  ghost predicate StoredUpTo(d: map<string, string>, keys: seq<string>, vals: seq<string>, n: nat)
    requires n <= |keys| == |vals|
  {
    && (forall k :: k in d <==> exists j :: 0 <= j < n && keys[j] == k)
    && (forall j :: 0 <= j < n && LastBefore(keys, j, n) ==> keys[j] in d && d[keys[j]] == vals[j])
  }

  /** One more store keeps the description true for one more position. */
  lemma {:induction false} StoreNext(d: map<string, string>, keys: seq<string>, vals: seq<string>, n: nat)
    requires n < |keys| == |vals| && StoredUpTo(d, keys, vals, n)
    ensures StoredUpTo(d[keys[n] := vals[n]], keys, vals, n + 1)
  {
    var next := d[keys[n] := vals[n]];
    forall k ensures k in next <==> exists j :: 0 <= j < n + 1 && keys[j] == k {
      if k == keys[n] {
        assert 0 <= n < n + 1 && keys[n] == k;
      }
    }
    forall j | 0 <= j < n + 1 && LastBefore(keys, j, n + 1)
      ensures keys[j] in next && next[keys[j]] == vals[j]
    {
      if j < n {
        assert keys[j] != keys[n];
        assert LastBefore(keys, j, n);
      }
    }
  }

  /** Any slice of a single line is a single line. */
  lemma {:induction false} SliceKeepsLine(s: string, lo: nat, hi: nat)
    requires NoNewline(s) && lo <= hi <= |s|
    ensures NoNewline(s[lo..hi])
  {
    forall k | 0 <= k < hi - lo ensures s[lo..hi][k] != '\n' {
      assert s[lo..hi][k] == s[lo + k];
    }
  }

  /** Stripping a single line leaves a single line. */
  lemma {:induction false} StripKeepsLine(s: string)
    requires NoNewline(s)
    ensures NoNewline(Strip(s))
  {
    var a := StripStart(s);
    SliceKeepsLine(s, a, a + |Strip(s)|);
  }

  /** Once every entry has been stored, the dictionary holds exactly the codes
      found, each with the stripped name of its last entry. */
  lemma {:induction false} StoredIsLastWins(es: seq<Entry>, keys: seq<string>, vals: seq<string>, codes: map<string, string>)
    requires |keys| == |vals| == |es|
    requires forall j :: 0 <= j < |es| ==> keys[j] == es[j].code && vals[j] == Strip(es[j].name)
    requires StoredUpTo(codes, keys, vals, |es|)
    ensures forall k :: k in codes <==> exists i :: 0 <= i < |es| && es[i].code == k
    ensures forall i :: 0 <= i < |es| && LastWithCode(es, i) ==>
      es[i].code in codes && codes[es[i].code] == Strip(es[i].name)
  {
    forall i | 0 <= i < |es| && LastWithCode(es, i)
      ensures es[i].code in codes && codes[es[i].code] == Strip(es[i].name)
    {
      assert LastBefore(keys, i, |es|);
    }
  }

  /** Every entry's code also appears on an entry that is the last one with it. */
  lemma {:induction false} LastOccurrence(es: seq<Entry>, i: nat) returns (j: nat)
    requires i < |es|
    ensures i <= j < |es| && es[j].code == es[i].code && LastWithCode(es, j)
    decreases |es| - i
  {
    if LastWithCode(es, i) {
      j := i;
    } else {
      var l :| i < l < |es| && es[l].code == es[i].code;
      j := LastOccurrence(es, l);
    }
  }

  /** A dictionary whose keys are the codes found, each holding the stripped
      name of the last entry with that code, maps digit runs to stripped
      single-line names. */
  lemma {:induction false} StoredAreWellFormed(es: seq<Entry>, codes: map<string, string>)
    requires forall k :: 0 <= k < |es| ==>
      es[k].code != [] && AllDigits(es[k].code) && es[k].name != [] && NoNewline(es[k].name)
    requires forall k :: k in codes <==> exists i :: 0 <= i < |es| && es[i].code == k
    requires forall i :: 0 <= i < |es| && LastWithCode(es, i) ==>
      es[i].code in codes && codes[es[i].code] == Strip(es[i].name)
    ensures forall k :: k in codes ==>
      k != [] && AllDigits(k) && Trimmed(codes[k]) && NoNewline(codes[k])
  {
    forall k | k in codes
      ensures k != [] && AllDigits(k) && Trimmed(codes[k]) && NoNewline(codes[k])
    {
      var i :| 0 <= i < |es| && es[i].code == k;
      var j := LastOccurrence(es, i);
      StripKeepsLine(es[j].name);
    }
  }

  /** `DataAgent.extract_animal_codes`: every pair the pattern finds is stored
      under its code, with the name stripped; a later pair overwrites an
      earlier one with the same code. */
  method ExtractAnimalCodes(readme: string) returns (codes: map<string, string>)
    ensures var es := FindAll(readme);
      forall k :: k in codes <==> exists i :: 0 <= i < |es| && es[i].code == k
    ensures var es := FindAll(readme);
      forall i :: 0 <= i < |es| && LastWithCode(es, i) ==>
        es[i].code in codes && codes[es[i].code] == Strip(es[i].name)
    ensures forall k :: k in codes ==>
      k != [] && AllDigits(k) && Trimmed(codes[k]) && NoNewline(codes[k])
  {
    var es := FindAll(readme);
    ghost var keys := seq(|es|, i requires 0 <= i < |es| => es[i].code);
    ghost var vals := seq(|es|, i requires 0 <= i < |es| => Strip(es[i].name));
    codes := map[];
    for i := 0 to |es|
      invariant StoredUpTo(codes, keys, vals, i)
    {
      var code, name := es[i].code, Strip(es[i].name);
      assert code == keys[i] && name == vals[i];
      StoreNext(codes, keys, vals, i);
      codes := codes[code := name];
    }
    StoredIsLastWins(es, keys, vals, codes);
    StoredAreWellFormed(es, codes);
  }
}
