/**
  What scripts/reporte_diario.py and scripts/reporte_mensual.py share: the
  log as parsed records, the selection of the IN rows of one period, the
  per-name count (`groupby(...).size()`) and the report order
  (`sort_values(["asistencias", "nombre"], ascending=[False, True])`).
*/
module Reports {
  import Admission

  /** A calendar date as pandas parses it from the timestamp. */
  datatype Date = Date(year: nat, month: nat, day: nat)

  /** Dates compare as `datetime.date` does: by year, then month, then day. */
  predicate DateLe(a: Date, b: Date) {
    a.year < b.year
    || (a.year == b.year && a.month < b.month)
    || (a.year == b.year && a.month == b.month && a.day <= b.day)
  }

  /** One parsed row of the log: the date of its timestamp, `nombre` and `evento`. */
  datatype Record = Record(date: Date, name: string, event: string)

  /** The period a report covers: one day, or one month of one year. */
  datatype Period = Day(date: Date) | Month(year: nat, month: nat)

  predicate InPeriod(r: Record, p: Period) {
    match p
    case Day(d) => r.date == d
    case Month(y, m) => r.date.year == y && r.date.month == m
  }

  /** Row `r` is counted in period `p`: an IN row of that period, the only event a report counts. */
  predicate Counted(r: Record, p: Period) {
    InPeriod(r, p) && r.event == Admission.IN
  }

  /** The names of the rows counted in period `p`, in log order. */
  function CountedNames(rows: seq<Record>, p: Period): (names: seq<string>)
    decreases |rows|
  {
    if |rows| == 0 then []
    else
      var r := rows[|rows| - 1];
      CountedNames(rows[..|rows| - 1], p) + (if Counted(r, p) then [r.name] else [])
  }

  /** How many rows of person `n` are counted in period `p`. */
  function CountOf(rows: seq<Record>, p: Period, n: string): nat
    decreases |rows|
  {
    if |rows| == 0 then 0
    else
      var r := rows[|rows| - 1];
      CountOf(rows[..|rows| - 1], p, n) + (if Counted(r, p) && r.name == n then 1 else 0)
  }

  /** How many rows are counted in period `p`, whoever they belong to. */
  function Total(rows: seq<Record>, p: Period): nat
    decreases |rows|
  {
    if |rows| == 0 then 0
    else Total(rows[..|rows| - 1], p) + (if Counted(rows[|rows| - 1], p) then 1 else 0)
  }

  /** The selected names are the counted rows: per person and in total. */
  lemma {:induction false} CountedNamesCount(rows: seq<Record>, p: Period)
    ensures forall n :: multiset(CountedNames(rows, p))[n] == CountOf(rows, p, n)
    ensures |CountedNames(rows, p)| == Total(rows, p)
    decreases |rows|
  {
    if |rows| > 0 {
      var front := rows[..|rows| - 1];
      var r := rows[|rows| - 1];
      CountedNamesCount(front, p);
      var extra := if Counted(r, p) then [r.name] else [];
      assert CountedNames(rows, p) == CountedNames(front, p) + extra;
      assert multiset(CountedNames(rows, p)) == multiset(CountedNames(front, p)) + multiset(extra);
    }
  }

  // ------------------------------------------------------------- ordering

  /** Python's `<` on str: code point by code point, a proper prefix first. */
  predicate LexLess(a: string, b: string)
    decreases |a|
  {
    if |a| == 0 then |b| > 0
    else if |b| == 0 then false
    else a[0] < b[0] || (a[0] == b[0] && LexLess(a[1..], b[1..]))
  }

  lemma {:induction false} LexLessIrreflexive(a: string)
    ensures !LexLess(a, a)
    decreases |a|
  {
    if |a| > 0 {
      LexLessIrreflexive(a[1..]);
    }
  }

  lemma {:induction false} LexLessAsymmetric(a: string, b: string)
    ensures !(LexLess(a, b) && LexLess(b, a))
    decreases |a|
  {
    if |a| > 0 && |b| > 0 {
      LexLessAsymmetric(a[1..], b[1..]);
    }
  }

  lemma {:induction false} LexLessTransitive(a: string, b: string, c: string)
    requires LexLess(a, b) && LexLess(b, c)
    ensures LexLess(a, c)
    decreases |a|
  {
    if |a| > 0 && a[0] == b[0] && b[0] == c[0] {
      LexLessTransitive(a[1..], b[1..], c[1..]);
    }
  }

  /** Two different names are always ordered one way or the other. */
  lemma {:induction false} LexLessTotal(a: string, b: string)
    ensures a == b || LexLess(a, b) || LexLess(b, a)
    decreases |a|
  {
    if |a| > 0 && |b| > 0 && a[0] == b[0] {
      LexLessTotal(a[1..], b[1..]);
      if a[1..] == b[1..] {
        assert a == [a[0]] + a[1..] && b == [b[0]] + b[1..];
      }
    }
  }

  /** One line of a report: a name and how many IN rows it has. */
  datatype Entry = Entry(name: string, count: nat)

  /** The report order: more IN rows first; equal counts by ascending name. */
  predicate Before(x: Entry, y: Entry) {
    x.count > y.count || (x.count == y.count && LexLess(x.name, y.name))
  }

  /** Each line comes strictly before every later line. */
  predicate Ordered(es: seq<Entry>) {
    forall i, j :: 0 <= i < j < |es| ==> Before(es[i], es[j])
  }

  predicate DistinctNames(es: seq<Entry>) {
    forall i, j :: 0 <= i < j < |es| ==> es[i].name != es[j].name
  }

  lemma BeforeAsymmetric(x: Entry, y: Entry)
    ensures !(Before(x, y) && Before(y, x))
  {
    LexLessAsymmetric(x.name, y.name);
  }

  /** Lines for different names are always comparable. */
  lemma BeforeTotal(x: Entry, y: Entry)
    requires x.name != y.name
    ensures Before(x, y) || Before(y, x)
  {
    LexLessTotal(x.name, y.name);
  }

  /** Before is transitive, so a line before the first of ordered lines is before all of them. */
  lemma BeforeTransitive(x: Entry, y: Entry, z: Entry)
    requires Before(x, y) && Before(y, z)
    ensures Before(x, z)
  {
    if x.count == y.count == z.count {
      LexLessTransitive(x.name, y.name, z.name);
    }
  }

  /** Putting a line in front of ordered lines that all come after it keeps them ordered. */
  lemma ConsOrdered(x: Entry, es: seq<Entry>)
    requires Ordered(es)
    requires forall j :: 0 <= j < |es| ==> Before(x, es[j])
    ensures Ordered([x] + es)
  {
    var r := [x] + es;
    forall i, j | 0 <= i < j < |r| ensures Before(r[i], r[j]) {
      if i > 0 {
        assert r[i] == es[i - 1] && r[j] == es[j - 1];
      }
    }
  }

  /** Places `e` among the ordered lines `es`. */
  function Insert(e: Entry, es: seq<Entry>): (r: seq<Entry>)
    requires Ordered(es)
    requires forall i :: 0 <= i < |es| ==> es[i].name != e.name
    ensures Ordered(r)
    ensures multiset(r) == multiset(es) + multiset{e}
    decreases |es|
  {
    if |es| == 0 then [e]
    else if Before(e, es[0]) then
      forall j | 0 < j < |es| ensures Before(e, es[j]) {
        BeforeTransitive(e, es[0], es[j]);
      }
      ConsOrdered(e, es);
      [e] + es
    else
      BeforeTotal(e, es[0]);
      var rest := Insert(e, es[1..]);
      assert es == [es[0]] + es[1..];
      forall j | 0 <= j < |rest| ensures Before(es[0], rest[j]) {
        assert rest[j] in multiset(rest);
      }
      ConsOrdered(es[0], rest);
      [es[0]] + rest
  }

  /** A rearrangement of lines that avoid a name avoids it too. */
  lemma AvoidsName(rest: seq<Entry>, tail: seq<Entry>, n: string)
    requires multiset(rest) == multiset(tail)
    requires forall i :: 0 <= i < |tail| ==> tail[i].name != n
    ensures forall i :: 0 <= i < |rest| ==> rest[i].name != n
  {
    forall i | 0 <= i < |rest| ensures rest[i].name != n {
      assert rest[i] in multiset(tail);
    }
  }

  /** Insertion sort into the report order. */
  function SortEntries(es: seq<Entry>): (r: seq<Entry>)
    requires DistinctNames(es)
    ensures Ordered(r)
    ensures multiset(r) == multiset(es)
    decreases |es|
  {
    if |es| == 0 then []
    else
      var rest := SortEntries(es[1..]);
      AvoidsName(rest, es[1..], es[0].name);
      assert es == [es[0]] + es[1..];
      Insert(es[0], rest)
  }

  /** Ordered lines whose count is a function of the name never repeat a name. */
  lemma OrderedDistinct(es: seq<Entry>, counts: multiset<string>)
    requires Ordered(es)
    requires forall i :: 0 <= i < |es| ==> es[i].count == counts[es[i].name]
    ensures DistinctNames(es)
  {
    forall i, j | 0 <= i < j < |es| ensures es[i].name != es[j].name {
      if es[i].name == es[j].name {
        assert Before(es[i], es[j]);
        LexLessIrreflexive(es[i].name);
      }
    }
  }

  /** The order leaves no freedom: two ordered arrangements of the same lines are equal. */
  lemma {:induction false} OrderedUnique(xs: seq<Entry>, ys: seq<Entry>)
    requires Ordered(xs) && Ordered(ys) && multiset(xs) == multiset(ys)
    ensures xs == ys
    decreases |xs|
  {
    if |xs| == 0 {
      assert |multiset(ys)| == 0;
    } else {
      assert |ys| > 0 by {
        assert xs[0] in multiset(ys);
      }
      SameHead(xs, ys);
      DropHead(xs);
      DropHead(ys);
      OrderedUnique(xs[1..], ys[1..]);
    }
  }

  /** Dropping the first line keeps the order and removes one line. */
  lemma DropHead(es: seq<Entry>)
    requires Ordered(es) && |es| > 0
    ensures Ordered(es[1..])
    ensures multiset(es[1..]) == multiset(es) - multiset{es[0]}
  {
    assert es == [es[0]] + es[1..];
    forall i, j | 0 <= i < j < |es| - 1 ensures Before(es[1..][i], es[1..][j]) {
      assert Before(es[i + 1], es[j + 1]);
    }
  }

  /** Both arrangements start with the line that comes before all others. */
  lemma SameHead(xs: seq<Entry>, ys: seq<Entry>)
    requires Ordered(xs) && Ordered(ys) && multiset(xs) == multiset(ys)
    requires |xs| > 0 && |ys| > 0
    ensures xs[0] == ys[0]
  {
    assert xs[0] in multiset(ys);
    var k :| 0 <= k < |ys| && ys[k] == xs[0];
    assert ys[0] in multiset(xs);
    var j :| 0 <= j < |xs| && xs[j] == ys[0];
    if k != 0 {
      assert Before(ys[0], xs[0]);
      if j == 0 {
        LexLessIrreflexive(ys[0].name);
      } else {
        assert Before(xs[0], ys[0]);
        BeforeAsymmetric(ys[0], xs[0]);
      }
    }
  }

  // ------------------------------------------------------------- counting

  /** The names of `names`, each once, in order of first appearance. */
  function Distinct(names: seq<string>): (d: seq<string>)
    ensures forall x :: x in d <==> x in names
    ensures forall i, j :: 0 <= i < j < |d| ==> d[i] != d[j]
    decreases |names|
  {
    if |names| == 0 then []
    else
      var front := Distinct(names[..|names| - 1]);
      var last := names[|names| - 1];
      assert names == names[..|names| - 1] + [last];
      if last in front then front else front + [last]
  }

  /** One line per key, with the key's multiplicity in `counts`. */
  function Tally(keys: seq<string>, counts: multiset<string>): (es: seq<Entry>)
    ensures |es| == |keys|
    ensures forall i :: 0 <= i < |keys| ==> es[i] == Entry(keys[i], counts[keys[i]])
    decreases |keys|
  {
    if |keys| == 0 then []
    else Tally(keys[..|keys| - 1], counts) + [Entry(keys[|keys| - 1], counts[keys[|keys| - 1]])]
  }


  /** The sum of the counts of a report. */
  function Sum(es: seq<Entry>): nat
    decreases |es|
  {
    if |es| == 0 then 0 else Sum(es[..|es| - 1]) + es[|es| - 1].count
  }

  lemma {:induction false} SumConcat(a: seq<Entry>, b: seq<Entry>)
    ensures Sum(a + b) == Sum(a) + Sum(b)
    decreases |b|
  {
    if |b| == 0 {
      assert a + b == a;
    } else {
      var ab := a + b;
      assert ab[..|ab| - 1] == a + b[..|b| - 1];
      assert ab[|ab| - 1] == b[|b| - 1];
      SumConcat(a, b[..|b| - 1]);
    }
  }

  /** Taking line `k` out lowers the total by its count. */
  lemma SumRemoveAt(ys: seq<Entry>, k: nat)
    requires k < |ys|
    ensures Sum(ys) == Sum(ys[..k] + ys[k + 1..]) + ys[k].count
  {
    var x := ys[k];
    var left, right := ys[..k], ys[k + 1..];
    assert Sum(ys) == Sum(left + [x]) + Sum(right) by {
      assert ys == (left + [x]) + right;
      SumConcat(left + [x], right);
    }
    assert Sum(left + [x]) == Sum(left) + x.count by {
      assert (left + [x])[..|left|] == left;
    }
    SumConcat(left, right);
  }

  /** Taking line `k` out removes that one line. */
  lemma LinesRemoveAt(ys: seq<Entry>, k: nat)
    requires k < |ys|
    ensures multiset(ys[..k] + ys[k + 1..]) == multiset(ys) - multiset{ys[k]}
  {
    assert ys == ys[..k] + [ys[k]] + ys[k + 1..];
  }

  /** The total does not depend on the order of the lines. */
  lemma {:induction false} SumPerm(xs: seq<Entry>, ys: seq<Entry>)
    requires multiset(xs) == multiset(ys)
    ensures Sum(xs) == Sum(ys)
    decreases |xs|
  {
    if |xs| == 0 {
      assert |multiset(ys)| == 0;
    } else {
      var n := |xs| - 1;
      var x := xs[n];
      assert x in multiset(ys);
      var k :| 0 <= k < |ys| && ys[k] == x;
      SumRemoveAt(ys, k);
      LinesRemoveAt(ys, k);
      assert xs == xs[..n] + [x];
      assert Sum(xs) == Sum(xs[..n]) + x.count;
      assert multiset(xs[..n]) == multiset(xs) - multiset{x};
      SumPerm(xs[..n], ys[..k] + ys[k + 1..]);
    }
  }

  /** One more occurrence of `a` adds one to the tally exactly when `a` is a key. */
  lemma {:induction false} TallyOneMore(keys: seq<string>, counts: multiset<string>, a: string)
    requires forall i, j :: 0 <= i < j < |keys| ==> keys[i] != keys[j]
    ensures Sum(Tally(keys, counts + multiset{a})) == Sum(Tally(keys, counts)) + (if a in keys then 1 else 0)
    decreases |keys|
  {
    if |keys| > 0 {
      var front := keys[..|keys| - 1];
      TallyOneMore(front, counts, a);
      assert keys == front + [keys[|keys| - 1]];
      var t1 := Tally(keys, counts + multiset{a});
      var t0 := Tally(keys, counts);
      assert t1[..|keys| - 1] == Tally(front, counts + multiset{a});
      assert t0[..|keys| - 1] == Tally(front, counts);
    }
  }

  lemma TallySnoc(keys: seq<string>, k: string, counts: multiset<string>)
    ensures Sum(Tally(keys + [k], counts)) == Sum(Tally(keys, counts)) + counts[k]
  {
    assert (keys + [k])[..|keys|] == keys;
  }

  /** Every occurrence is counted once: the tally over the distinct names sums to the number of names. */
  lemma {:induction false} TallySum(names: seq<string>)
    ensures Sum(Tally(Distinct(names), multiset(names))) == |names|
    decreases |names|
  {
    if |names| > 0 {
      var ns := names[..|names| - 1];
      var a := names[|names| - 1];
      var m := multiset(ns);
      var d := Distinct(ns);
      assert multiset(names) == m + multiset{a} by {
        assert names == ns + [a];
      }
      assert Distinct(names) == if a in d then d else d + [a] by {
        assert names[..|names| - 1] == ns;
      }
      TallySum(ns);
      if a !in d {
        assert Sum(Tally(d + [a], m + multiset{a})) == Sum(Tally(d, m + multiset{a})) + 1 by {
          TallySnoc(d, a, m + multiset{a});
          assert m[a] == 0;
        }
        assert Sum(Tally(d, m + multiset{a})) == Sum(Tally(d, m)) by {
          TallyOneMore(d, m, a);
        }
      } else {
        assert Sum(Tally(d, m + multiset{a})) == Sum(Tally(d, m)) + 1 by {
          TallyOneMore(d, m, a);
        }
      }
    }
  }

  /** A tally line carries the true count of a name that occurs. */
  lemma TallyLineCount(names: seq<string>, e: Entry)
    requires e in Tally(Distinct(names), multiset(names))
    ensures e.count == multiset(names)[e.name] > 0
    ensures e.name in names
  {
    var d := Distinct(names);
    var lines := Tally(d, multiset(names));
    var k :| 0 <= k < |lines| && lines[k] == e;
    assert d[k] in d;
  }

  /** Every name that occurs has its tally line. */
  lemma TallyLineOf(names: seq<string>, n: string)
    requires n in names
    ensures Entry(n, multiset(names)[n]) in Tally(Distinct(names), multiset(names))
  {
    var d := Distinct(names);
    var k :| 0 <= k < |d| && d[k] == n;
    assert Tally(d, multiset(names))[k] == Entry(n, multiset(names)[n]);
  }

  /** Rearranged tally lines carry the true counts, and cover exactly the names. */
  lemma TallyLines(names: seq<string>, es: seq<Entry>)
    requires multiset(es) == multiset(Tally(Distinct(names), multiset(names)))
    ensures forall i :: 0 <= i < |es| ==> es[i].count == multiset(names)[es[i].name] > 0
    ensures forall n :: n in names <==> exists i :: 0 <= i < |es| && es[i].name == n
  {
    var lines := Tally(Distinct(names), multiset(names));
    forall i | 0 <= i < |es| ensures es[i].count == multiset(names)[es[i].name] > 0 && es[i].name in names {
      assert es[i] in multiset(lines);
      TallyLineCount(names, es[i]);
    }
    forall n | n in names ensures exists i :: 0 <= i < |es| && es[i].name == n {
      TallyLineOf(names, n);
      var e := Entry(n, multiset(names)[n]);
      assert e in multiset(es);
      var i :| 0 <= i < |es| && es[i] == e;
      assert es[i].name == n;
    }
  }

  /** The tally lines have distinct names, since the keys are distinct. */
  lemma TallyDistinct(names: seq<string>)
    ensures DistinctNames(Tally(Distinct(names), multiset(names)))
  {
  }

  /**
    The report over a list of names: one line per name, with its number of
    occurrences, in report order.
  */
  function CountReport(names: seq<string>): (es: seq<Entry>)
    ensures Ordered(es)
    ensures DistinctNames(es)
    ensures forall i :: 0 <= i < |es| ==> es[i].count == multiset(names)[es[i].name] > 0
    ensures forall n :: n in names <==> exists i :: 0 <= i < |es| && es[i].name == n
    ensures Sum(es) == |names|
  {
    var lines := Tally(Distinct(names), multiset(names));
    TallyDistinct(names);
    var es := SortEntries(lines);
    TallyLines(names, es);
    OrderedDistinct(es, multiset(names));
    TallySum(names);
    SumPerm(es, lines);
    es
  }

  // ------------------------------------------------------------- reports

  /**
    What a correct report of period `p` is: ranked lines, one per person
    with a counted row, each carrying that person's number of counted rows.
  */
  ghost predicate Describes(es: seq<Entry>, rows: seq<Record>, p: Period) {
    && Ordered(es)
    && DistinctNames(es)
    && (forall i :: 0 <= i < |es| ==> es[i].count == CountOf(rows, p, es[i].name) > 0)
    && (forall n :: CountOf(rows, p, n) > 0 <==> exists i :: 0 <= i < |es| && es[i].name == n)
  }

  /** The ranked count of the counted names meets the description. */
  lemma CountedNamesReport(rows: seq<Record>, p: Period)
    ensures Describes(CountReport(CountedNames(rows, p)), rows, p)
    ensures Sum(CountReport(CountedNames(rows, p))) == Total(rows, p)
  {
    var names := CountedNames(rows, p);
    var es := CountReport(names);
    CountedNamesCount(rows, p);
    forall n ensures CountOf(rows, p, n) > 0 <==> exists i :: 0 <= i < |es| && es[i].name == n {
      NamedLine(names, es, n);
    }
  }

  /** A name occurs exactly when a line of its count report carries it. */
  lemma NamedLine(names: seq<string>, es: seq<Entry>, n: string)
    requires forall m :: m in names <==> exists i :: 0 <= i < |es| && es[i].name == m
    ensures multiset(names)[n] > 0 <==> exists i :: 0 <= i < |es| && es[i].name == n
  {
    assert n in multiset(names) <==> n in names;
  }

  /**
    `groupby(...).size()` over the IN rows of the period, then
    `sort_values(["asistencias", "nombre"], ascending=[False, True])`.
  */
  function PeriodReport(rows: seq<Record>, p: Period): (es: seq<Entry>)
    ensures Describes(es, rows, p)
    ensures Sum(es) == Total(rows, p)
  {
    CountedNamesReport(rows, p);
    CountReport(CountedNames(rows, p))
  }

  /** A counted row makes its person's count positive. */
  lemma {:induction false} CountOfRow(rows: seq<Record>, p: Period, i: nat)
    requires i < |rows|
    ensures Counted(rows[i], p) ==> CountOf(rows, p, rows[i].name) > 0
    decreases |rows|
  {
    if i < |rows| - 1 {
      CountOfRow(rows[..|rows| - 1], p, i);
    }
  }

  /** A positive count comes from a counted row of that person. */
  lemma {:induction false} RowOfCount(rows: seq<Record>, p: Period, n: string) returns (i: nat)
    requires CountOf(rows, p, n) > 0
    ensures i < |rows| && Counted(rows[i], p) && rows[i].name == n
    decreases |rows|
  {
    var last := rows[|rows| - 1];
    if Counted(last, p) && last.name == n {
      i := |rows| - 1;
    } else {
      i := RowOfCount(rows[..|rows| - 1], p, n);
    }
  }

  /** A report has no lines exactly when no row of the period is an IN. */
  lemma EmptyReport(rows: seq<Record>, p: Period)
    ensures |PeriodReport(rows, p)| == 0 <==> forall i :: 0 <= i < |rows| ==> !Counted(rows[i], p)
  {
    var es := PeriodReport(rows, p);
    if |es| == 0 {
      forall i | 0 <= i < |rows| ensures !Counted(rows[i], p) {
        CountOfRow(rows, p, i);
      }
    } else {
      var i := RowOfCount(rows, p, es[0].name);
    }
  }

  /** A line of a report that describes the period is in every other such report. */
  lemma DescribedLine(xs: seq<Entry>, ys: seq<Entry>, rows: seq<Record>, p: Period, i: nat)
    requires Describes(xs, rows, p) && Describes(ys, rows, p) && i < |xs|
    ensures xs[i] in ys
  {
    var n := xs[i].name;
    var j :| 0 <= j < |ys| && ys[j].name == n;
    assert ys[j] == xs[i];
  }

  /** A sequence without repetitions holds each of its elements once. */
  lemma {:induction false} OnceEach(xs: seq<Entry>, e: Entry)
    requires DistinctNames(xs)
    ensures multiset(xs)[e] == if e in xs then 1 else 0
    decreases |xs|
  {
    if |xs| > 0 {
      var front := xs[..|xs| - 1];
      assert xs == front + [xs[|xs| - 1]];
      OnceEach(front, e);
      assert forall k :: 0 <= k < |front| ==> front[k].name != xs[|xs| - 1].name;
    }
  }

  /** The description fixes the report: two reports that meet it are equal. */
  lemma DescribesUnique(xs: seq<Entry>, ys: seq<Entry>, rows: seq<Record>, p: Period)
    requires Describes(xs, rows, p) && Describes(ys, rows, p)
    ensures xs == ys
  {
    forall e ensures multiset(xs)[e] == multiset(ys)[e] {
      OnceEach(xs, e);
      OnceEach(ys, e);
      if e in xs {
        var i :| 0 <= i < |xs| && xs[i] == e;
        DescribedLine(xs, ys, rows, p, i);
      }
      if e in ys {
        var j :| 0 <= j < |ys| && ys[j] == e;
        DescribedLine(ys, xs, rows, p, j);
      }
    }
    assert multiset(xs) == multiset(ys);
    OrderedUnique(xs, ys);
  }
}
