/** The question answering of the data-analyst view: a question is lower-cased,
    its first keyword (in a fixed priority) picks the kind of answer, and an
    aggregate answer is about the first column whose name occurs in the
    question. The aggregate figures themselves (pandas' mean, max, min and
    sum, printed with two decimals) are given, already formatted. */
module QuestionRouter {
  import opened Wrappers
  import opened Text

  /** The test of `_extract_column`: the column's lower-case name occurs in
      the lower-cased text. */
  predicate Mentions(text: string, column: string) {
    Contains(Lower(text), Lower(column))
  }

  /** Column `i` is mentioned by the text and no earlier column is. */
  predicate FirstMentioned(text: string, columns: seq<string>, i: nat)
    requires i < |columns|
  {
    Mentions(text, columns[i]) && forall j :: 0 <= j < i ==> !Mentions(text, columns[j])
  }

  /** `DataAnalystVisualizer._extract_column`: the first column, in the given
      order, that the text mentions. */
  function ExtractColumn(text: string, columns: seq<string>): (r: Option<string>)
    ensures r.None? <==> forall i :: 0 <= i < |columns| ==> !Mentions(text, columns[i])
    ensures r.Some? ==>
      exists i :: 0 <= i < |columns| && columns[i] == r.value && FirstMentioned(text, columns, i)
  {
    if |columns| == 0 then None
    else if Mentions(text, columns[0]) then
      assert FirstMentioned(text, columns, 0);
      Some(columns[0])
    else
      var r := ExtractColumn(text, columns[1..]);
      assert r.Some? ==>
        exists i :: 1 <= i < |columns| && columns[i] == r.value && FirstMentioned(text, columns, i) by {
        if r.Some? {
          var i :| 0 <= i < |columns[1..]| && columns[1..][i] == r.value && FirstMentioned(text, columns[1..], i);
          assert forall j :: 1 <= j < i + 1 ==> columns[j] == columns[1..][j - 1];
          assert FirstMentioned(text, columns, i + 1);
        }
      }
      r
  }

  /** Lower-casing the text first does not change which column is found. */
  lemma {:induction false} ExtractColumnIgnoresCase(text: string, columns: seq<string>)
    ensures ExtractColumn(Lower(text), columns) == ExtractColumn(text, columns)
  {
    LowerIdempotent(text);
    var a, b := ExtractColumn(Lower(text), columns), ExtractColumn(text, columns);
    assert forall c :: Mentions(Lower(text), c) == Mentions(text, c);
    if a.Some? && b.Some? {
      var i :| 0 <= i < |columns| && columns[i] == a.value && FirstMentioned(Lower(text), columns, i);
      var k :| 0 <= k < |columns| && columns[k] == b.value && FirstMentioned(text, columns, k);
      assert !(i < k) && !(k < i);
    }
  }

  /** The empty string occurs in every text, so a column with an empty name is
      mentioned by every question. */
  lemma {:induction false} EmptyNameAlwaysMentioned(text: string)
    ensures Mentions(text, "")
  {
    assert OccursAt(Lower(text), Lower(""), 0);
  }

  /** The kinds of answer, in the order the code looks for their keywords. */
  datatype Intent = Average | Maximum | Minimum | Total | Count | ListColumns | Unknown

  function Rank(k: Intent): nat {
    match k
    case Average => 0
    case Maximum => 1
    case Minimum => 2
    case Total => 3
    case Count => 4
    case ListColumns => 5
    case Unknown => 6
  }

  /** The keywords that ask for each kind of answer. */
  function Keywords(k: Intent): seq<string> {
    match k
    case Average => ["promedio", "media"]
    case Maximum => ["máximo"]
    case Minimum => ["mínimo"]
    case Total => ["total", "suma"]
    case Count => ["cuántos", "cantidad"]
    case ListColumns => ["columnas"]
    case Unknown => []
  }

  /** The question holds one of the keywords of `k`. */
  predicate Asks(q: string, k: Intent) {
    exists w :: w in Keywords(k) && Contains(q, w)
  }

  /** The condition chain of `generate_response`: the first kind, in
      priority order, one of whose keywords the question holds. */
  function Classify(q: string): (k: Intent)
    ensures k != Unknown ==> Asks(q, k)
    ensures forall k' :: Rank(k') < Rank(k) ==> !Asks(q, k')
  {
    if Contains(q, "promedio") || Contains(q, "media") then Average
    else if Contains(q, "máximo") then Maximum
    else if Contains(q, "mínimo") then Minimum
    else if Contains(q, "total") || Contains(q, "suma") then Total
    else if Contains(q, "cuántos") || Contains(q, "cantidad") then Count
    else if Contains(q, "columnas") then ListColumns
    else Unknown
  }

  /** Conversely, the first kind asked for is the one chosen, even when
      keywords of later kinds occur too. */
  lemma {:induction false} FirstKeywordDecides(q: string, k: Intent)
    requires Asks(q, k)
    requires forall k' :: Rank(k') < Rank(k) ==> !Asks(q, k')
    ensures Classify(q) == k
  {
    var c := Classify(q);
    assert Rank(c) <= Rank(k);
    assert Rank(c) >= Rank(k) by {
      if c != Unknown {
        assert Asks(q, c);
      }
    }
  }

  predicate IsAggregate(k: Intent) {
    k == Average || k == Maximum || k == Minimum || k == Total
  }

  const Apology: string := "Lo siento, no puedo responder a esa pregunta en este momento."

  /** The sentence of an aggregate answer about `column`. */
  function AggregateAnswer(k: Intent, column: string, figure: string): string
    requires IsAggregate(k)
  {
    match k
    case Average => "El promedio de " + column + " es " + figure
    case Maximum => "El valor máximo de " + column + " es " + figure
    case Minimum => "El valor mínimo de " + column + " es " + figure
    case Total => "La suma total de " + column + " es " + figure
  }

  function CountAnswer(rowCount: nat): string {
    "El dataset contiene " + NatToString(rowCount) + " registros"
  }

  const ColumnsPrefix: string := "Las columnas del dataset son: "

  /** `DataAnalystVisualizer.generate_response` for a frame with the given
      column labels and row count; `figure(k, c)` is the formatted aggregate
      of column `c`. `None` is the fall-through of an aggregate question for
      which no column is found: `if column:` is false both for no column and
      for a column whose name is empty. */
  function GenerateResponse(question: string, columns: seq<string>, rowCount: nat,
                            figure: (Intent, string) -> string): (r: Option<string>)
    ensures var q := Lower(question); var col := ExtractColumn(q, columns);
      r.None? <==> IsAggregate(Classify(q)) && (col.None? || col.value == "")
    ensures (forall k :: !Asks(Lower(question), k)) ==> r == Some(Apology)
  {
    var q := Lower(question);
    var k := Classify(q);
    if IsAggregate(k) then
      var column := ExtractColumn(q, columns);
      if column.Some? && column.value != "" then
        Some(AggregateAnswer(k, column.value, figure(k, column.value)))
      else
        None
    else if k == Count then Some(CountAnswer(rowCount))
    else if k == ListColumns then Some(ColumnsPrefix + Join(columns, ", "))
    else Some(Apology)
  }

  /** An aggregate answer is about the first column the question mentions. */
  lemma {:induction false} AggregateNamesFirstColumn(question: string, columns: seq<string>, rowCount: nat,
                                  figure: (Intent, string) -> string)
    requires IsAggregate(Classify(Lower(question)))
    requires GenerateResponse(question, columns, rowCount, figure).Some?
    ensures var q := Lower(question); var k := Classify(q);
      exists i :: 0 <= i < |columns| && FirstMentioned(q, columns, i) &&
        GenerateResponse(question, columns, rowCount, figure) == Some(AggregateAnswer(k, columns[i], figure(k, columns[i])))
  {
  }

  /** A leading column with an empty name hides every other column: an
      aggregate question then always falls through to `None`. */
  lemma {:induction false} EmptyLeadingColumnGivesNone(question: string, columns: seq<string>, rowCount: nat,
                                    figure: (Intent, string) -> string)
    requires IsAggregate(Classify(Lower(question)))
    requires |columns| > 0 && columns[0] == ""
    ensures GenerateResponse(question, columns, rowCount, figure) == None
  {
    EmptyNameAlwaysMentioned(Lower(question));
  }

  /** The row count answer does not look at the columns or the figures. */
  lemma {:induction false} CountIgnoresColumns(question: string, columns: seq<string>, columns': seq<string>, rowCount: nat,
                            figure: (Intent, string) -> string, figure': (Intent, string) -> string)
    requires Classify(Lower(question)) == Count
    ensures GenerateResponse(question, columns, rowCount, figure) == Some(CountAnswer(rowCount))
    ensures GenerateResponse(question, columns', rowCount, figure') == Some(CountAnswer(rowCount))
  {
  }

  /** The row count in the answer reads back as the row count. */
  lemma {:induction false} CountAnswerRoundTrip(rowCount: nat)
    ensures var a := CountAnswer(rowCount);
      |a| > 30 && AllDigits(a[20..|a| - 10]) && DigitsValue(a[20..|a| - 10]) == rowCount
  {
    var a := CountAnswer(rowCount);
    assert a[20..|a| - 10] == NatToString(rowCount);
    NatToStringRoundTrip(rowCount);
  }

  /** The column listing names every column, in the given order, separated by ", ". */
  lemma {:induction false} ListingShowsColumnsInOrder(question: string, columns: seq<string>, rowCount: nat,
                                   figure: (Intent, string) -> string, i: nat)
    requires Classify(Lower(question)) == ListColumns
    requires i < |columns|
    ensures var r := GenerateResponse(question, columns, rowCount, figure);
      var at := |ColumnsPrefix| + JoinOffset(columns, ", ", i);
      && r.Some?
      && r.value[..|ColumnsPrefix|] == ColumnsPrefix
      && |r.value| == |ColumnsPrefix| + JoinOffset(columns, ", ", |columns| - 1) + |columns[|columns| - 1]|
      && at + |columns[i]| <= |r.value|
      && r.value[at..at + |columns[i]|] == columns[i]
      && (i + 1 < |columns| ==>
            at + |columns[i]| + 2 <= |r.value| && r.value[at + |columns[i]|..at + |columns[i]| + 2] == ", ")
  {
    ListingAnswer(question, columns, rowCount, figure);
    ListingLayout(ColumnsPrefix, columns, ", ", i);
    JoinLength(columns, ", ");
  }

  /** A question classified as a listing gets the prefix and the joined columns. */
  lemma {:induction false} ListingAnswer(question: string, columns: seq<string>, rowCount: nat,
                                         figure: (Intent, string) -> string)
    requires Classify(Lower(question)) == ListColumns
    ensures GenerateResponse(question, columns, rowCount, figure) == Some(ColumnsPrefix + Join(columns, ", "))
  {
  }

  /** Where item `i` and the separator after it lie in `prefix + sep.join(columns)`. */
  lemma {:induction false} ListingLayout(prefix: string, columns: seq<string>, sep: string, i: nat)
    requires i < |columns|
    ensures var r := prefix + Join(columns, sep);
      var at := |prefix| + JoinOffset(columns, sep, i);
      && at + |columns[i]| <= |r|
      && r[at..at + |columns[i]|] == columns[i]
      && (i + 1 < |columns| ==> at + |columns[i]| + |sep| <= |r| && r[at + |columns[i]|..at + |columns[i]| + |sep|] == sep)
  {
    JoinItem(columns, sep, i);
    var j := Join(columns, sep);
    var o := JoinOffset(columns, sep, i);
    SliceAfterPrefix(prefix, j, o, o + |columns[i]|);
    if i + 1 < |columns| {
      JoinSeparator(columns, sep, i);
      SliceAfterPrefix(prefix, j, o + |columns[i]|, o + |columns[i]| + |sep|);
    }
  }

  lemma {:induction false} SliceAfterPrefix(prefix: string, s: string, lo: nat, hi: nat)
    requires lo <= hi <= |s|
    ensures (prefix + s)[|prefix| + lo..|prefix| + hi] == s[lo..hi]
  {
  }

  /** Asking in capitals gets the same answer. */
  lemma {:induction false} ResponseIgnoresCase(question: string, columns: seq<string>, rowCount: nat,
                            figure: (Intent, string) -> string)
    ensures GenerateResponse(Lower(question), columns, rowCount, figure)
         == GenerateResponse(question, columns, rowCount, figure)
  {
    LowerIdempotent(question);
  }
}
