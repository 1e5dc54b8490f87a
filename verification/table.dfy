/**
  The rows `get_beautiful_table` hands to the table renderer: a header row,
  then per language its name and the string form of each statistic.
 */
module Table {
  import opened Wrappers
  import opened Dict
  import opened Decimal
  import opened Aggregation

  const Header: seq<string> := [
    "Язык программирования",
    "Вакансий найдено",
    "Вакансий обработано",
    "Средняя зарплата"
  ]

  /** One data row: the language, then `str(value)` for each statistic. */
  function Row(language: string, st: Statistics): (r: seq<string>)
    ensures |r| == |Header|
    ensures r[0] == language
    ensures r[1..] == [NatToString(st.found), NatToString(st.processed), NatToString(st.average)]
    // each statistic cell is a decimal numeral that reads back as the statistic
    ensures ParseNat(r[1]) == Some(st.found)
    ensures ParseNat(r[2]) == Some(st.processed)
    ensures ParseNat(r[3]) == Some(st.average)
  {
    ParseNatToString(st.found);
    ParseNatToString(st.processed);
    ParseNatToString(st.average);
    [language] + [NatToString(st.found), NatToString(st.processed), NatToString(st.average)]
  }

  /** The rows for a summary, header first, languages in the dict's order. */
  function Rows(data: Dict<string, Statistics>): (rows: seq<seq<string>>)
    ensures |rows| == |data| + 1
    ensures rows[0] == Header
    // row i + 1 is the row of language i
    ensures forall i :: 0 <= i < |data| ==> rows[i + 1] == Row(data[i].0, data[i].1)
  {
    if |data| == 0 then [Header]
    else
      var n := |data| - 1;
      var (language, st) := data[n];
      Rows(data[..n]) + [Row(language, st)]
  }

  /** Every row has the header's four cells; row i + 1 names language i and holds the decimal form of its statistics, which reads back as them. */
  lemma RowsCells(data: Dict<string, Statistics>)
    ensures forall i :: 0 <= i < |Rows(data)| ==> |Rows(data)[i]| == |Header|
    ensures forall i :: 0 <= i < |data| ==>
      && Rows(data)[i + 1][0] == data[i].0
      && Rows(data)[i + 1][1..] == [NatToString(data[i].1.found), NatToString(data[i].1.processed), NatToString(data[i].1.average)]
      && ParseNat(Rows(data)[i + 1][1]) == Some(data[i].1.found)
      && ParseNat(Rows(data)[i + 1][2]) == Some(data[i].1.processed)
      && ParseNat(Rows(data)[i + 1][3]) == Some(data[i].1.average)
  {
    var rows := Rows(data);
    assert |Header| == 4;
    forall i | 0 <= i < |data|
      ensures ParseNat(rows[i + 1][1]) == Some(data[i].1.found)
      ensures ParseNat(rows[i + 1][2]) == Some(data[i].1.processed)
      ensures ParseNat(rows[i + 1][3]) == Some(data[i].1.average)
    {
      var r := Row(data[i].0, data[i].1);
      assert rows[i + 1] == r;
    }
  }
}
