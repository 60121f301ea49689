/**
 * A worked example of the per-(ticker, date) mean of finviz.py:75 and
 * main.py:70: two headlines of one ticker on one day average to their mean,
 * a lone headline keeps its score, and a pair with no headline has no cell.
 */
module AggregateExamples {
  import opened Calendar
  import opened Aggregate

  /** The scores a single row contributes to the group `k`. */
  function Own(x: Scored, k: Key): seq<real> {
    if KeyOf(x) == k then [x.score] else []
  }

  lemma SelectOfThree(x: Scored, y: Scored, z: Scored, k: Key)
    ensures Select([x, y, z], k) == Own(x, k) + Own(y, k) + Own(z, k)
  {
    assert [x][..0] == [];
    assert Select([x], k) == [] + Own(x, k);
    assert [x, y][..1] == [x];
    assert Select([x, y], k) == Select([x], k) + Own(y, k);
    assert [x, y, z][..2] == [x, y];
    assert Select([x, y, z], k) == Select([x, y], k) + Own(z, k);
    assert [] + Own(x, k) == Own(x, k);
  }

  lemma GroupX(d: Date)
    ensures Select([Scored("X", d, 0.2), Scored("X", d, -0.4), Scored("Y", d, 0.6)], Key("X", d)) == [0.2, -0.4]
  {
    SelectOfThree(Scored("X", d, 0.2), Scored("X", d, -0.4), Scored("Y", d, 0.6), Key("X", d));
  }

  lemma GroupY(d: Date)
    ensures Select([Scored("X", d, 0.2), Scored("X", d, -0.4), Scored("Y", d, 0.6)], Key("Y", d)) == [0.6]
  {
    SelectOfThree(Scored("X", d, 0.2), Scored("X", d, -0.4), Scored("Y", d, 0.6), Key("Y", d));
  }

  lemma GroupZ(d: Date)
    ensures Select([Scored("X", d, 0.2), Scored("X", d, -0.4), Scored("Y", d, 0.6)], Key("Z", d)) == []
  {
    SelectOfThree(Scored("X", d, 0.2), Scored("X", d, -0.4), Scored("Y", d, 0.6), Key("Z", d));
  }

  lemma ExampleMeans()
    ensures Mean([0.2, -0.4]) == -0.1 && Mean([0.6]) == 0.6
  {
    assert [0.2, -0.4][..1] == [0.2];
    assert [0.2][..0] == [];
    assert [0.6][..0] == [];
  }

  /** Ticker X has two headlines on `d` scoring 0.2 and -0.4, ticker Y one
      scoring 0.6: the cells are -0.1 and 0.6, and ticker Z has none. */
  lemma MeanExample(d: Date, rows: seq<Scored>)
    requires rows == [Scored("X", d, 0.2), Scored("X", d, -0.4), Scored("Y", d, 0.6)]
    ensures Key("X", d) in GroupMean(rows) && GroupMean(rows)[Key("X", d)] == -0.1
    ensures Key("Y", d) in GroupMean(rows) && GroupMean(rows)[Key("Y", d)] == 0.6
    ensures Key("Z", d) !in GroupMean(rows)
  {
    GroupX(d);
    GroupY(d);
    GroupZ(d);
    ExampleMeans();
  }
}
