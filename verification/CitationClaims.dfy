// Which lines of a text must carry a citation (apps/worker/src/output-policy.ts, citationClaims).
module CitationClaims {

  // The patterns a line is compared with.
  datatype Patterns = Patterns(
    lead: string -> bool,      // a heading of a lead or prospect section
    heading: string -> bool,   // any heading of level one to three
    table: string -> bool,     // a line that starts with a bar
    source: string -> bool,    // mentions a source, url, website or citation
    separator: string -> bool, // only bars, colons, dashes and blanks
    bullet: string -> bool)    // a list item

  // What their spelling makes true of every line: the lead pattern extends the heading pattern,
  // and no separator line has letters in it.
  ghost predicate Regular(p: Patterns) {
    && (forall l :: p.lead(l) ==> p.heading(l))
    && (forall l :: p.source(l) ==> !p.separator(l))
  }

  function Filter(keep: string -> bool, lines: seq<string>): seq<string> {
    if lines == [] then []
    else
      var n := |lines| - 1;
      Filter(keep, lines[..n]) + if keep(lines[n]) then [lines[n]] else []
  }

  function Join(lines: seq<string>): string {
    if lines == [] then ""
    else if |lines| == 1 then lines[0]
    else Join(lines[..|lines| - 1]) + "\n" + lines[|lines| - 1]
  }

  // Filtering goes line by line and keeps just the fitting lines...
  lemma {:induction false} FilterJoins(keep: string -> bool, a: seq<string>, b: seq<string>)
    ensures Filter(keep, a + b) == Filter(keep, a) + Filter(keep, b)
    decreases |b|
  {
    if b == [] {
      assert a + b == a;
    } else {
      var init, last := b[..|b| - 1], b[|b| - 1];
      FilterJoins(keep, a, init);
      FilterMore(keep, a + init, last);
      FilterMore(keep, init, last);
      assert b == init + [last] && a + b == (a + init) + [last];
    }
  }

  lemma FilterMore(keep: string -> bool, lines: seq<string>, l: string)
    ensures Filter(keep, lines + [l]) == Filter(keep, lines) + if keep(l) then [l] else []
  {
    assert (lines + [l])[..|lines + [l]| - 1] == lines;
  }

  lemma {:induction false} FilterKeeps(keep: string -> bool, lines: seq<string>, l: string)
    ensures l in Filter(keep, lines) <==> l in lines && keep(l)
    ensures Filter(keep, [l]) == if keep(l) then [l] else []
  {
    if lines == [] {
    } else {
      var n := |lines| - 1;
      FilterKeeps(keep, lines[..n], l);
      assert lines == lines[..n] + [lines[n]];
    }
    assert [l][..0] == [];
  }

  // ... joining puts a line break between any two lines.
  lemma {:induction false} JoinBreaks(a: seq<string>, b: seq<string>, l: string)
    requires a != [] && b != []
    ensures Join(a + b) == Join(a) + "\n" + Join(b)
    ensures Join([l]) == l && Join([]) == ""
    decreases |b|
  {
    var n := |b| - 1;
    assert (a + b)[..|a + b| - 1] == a + b[..n] && (a + b)[|a + b| - 1] == b[n];
    if n == 0 {
      assert a + b[..0] == a;
    } else {
      JoinBreaks(a, b[..n], l);
    }
  }

  // ----- lead sections ------------------------------------------------------

  // The next heading at or after i, or the end of the text.
  function NextHeading(p: Patterns, lines: seq<string>, i: nat): (e: nat)
    requires i <= |lines|
    ensures i <= e <= |lines| && (e < |lines| ==> p.heading(lines[e]))
    ensures forall j :: i <= j < e ==> !p.heading(lines[j])
    decreases |lines| - i
  {
    if i == |lines| || p.heading(lines[i]) then i else NextHeading(p, lines, i + 1)
  }

  // One section for each lead heading before line n, in order.
  function Sections(p: Patterns, lines: seq<string>, n: nat): seq<string>
    requires n <= |lines|
  {
    if n == 0 then []
    else
      Sections(p, lines, n - 1)
      + if p.lead(lines[n - 1]) then [Join(lines[n..NextHeading(p, lines, n)])] else []
  }

  lemma {:induction false} SectionsNonEmpty(p: Patterns, lines: seq<string>, n: nat)
    requires n <= |lines|
    ensures Sections(p, lines, n) != [] <==> exists i :: 0 <= i < n && p.lead(lines[i])
  {
    if n == 0 {
    } else {
      SectionsNonEmpty(p, lines, n - 1);
    }
  }

  lemma {:induction false} NoLeadBetween(p: Patterns, lines: seq<string>, i: nat, n: nat)
    requires i <= n <= |lines| && forall j :: i <= j < n ==> !p.lead(lines[j])
    ensures Sections(p, lines, n) == Sections(p, lines, i)
  {
    if i < n {
      NoLeadBetween(p, lines, i, n - 1);
    }
  }

  lemma {:induction false} HeadingFound(p: Patterns, lines: seq<string>, i: nat, e: nat)
    requires i <= e <= |lines| && (e < |lines| ==> p.heading(lines[e]))
    requires forall j :: i <= j < e ==> !p.heading(lines[j])
    ensures NextHeading(p, lines, i) == e
  {}

  lemma LeadAdds(p: Patterns, lines: seq<string>, i: nat)
    requires i < |lines| && p.lead(lines[i])
    ensures Sections(p, lines, i + 1) == Sections(p, lines, i) + [Join(lines[i + 1..NextHeading(p, lines, i + 1)])]
  {}

  // The section of a lead heading leads straight to the next heading: there is no other lead
  // before it.
  lemma SectionTaken(p: Patterns, lines: seq<string>, i: nat, e: nat)
    requires i < e <= |lines| && p.lead(lines[i]) && (e < |lines| ==> p.heading(lines[e]))
    requires forall j :: i < j < e ==> !p.heading(lines[j]) && !p.lead(lines[j])
    ensures Sections(p, lines, e) == Sections(p, lines, i) + [Join(lines[i + 1..e])]
  {
    HeadingFound(p, lines, i + 1, e);
    LeadAdds(p, lines, i);
    NoLeadBetween(p, lines, i + 1, e);
  }

  // One section for each lead heading and no other, in the order of the headings: the lines behind
  // the heading up to the next one of any kind, joined.
  lemma {:induction false} SectionAt(p: Patterns, lines: seq<string>, k: nat, n: nat)
    requires k < n <= |lines| && p.lead(lines[k])
    ensures |Sections(p, lines, k)| < |Sections(p, lines, n)|
    ensures Sections(p, lines, n)[|Sections(p, lines, k)|] == Join(lines[k + 1..NextHeading(p, lines, k + 1)])
  {
    if k < n - 1 {
      SectionAt(p, lines, k, n - 1);
    }
  }

  lemma {:induction false} SectionsCounted(p: Patterns, lines: seq<string>, n: nat)
    requires n <= |lines|
    ensures |Sections(p, lines, n)| == |set k: nat | k < n && p.lead(lines[k])|
  {
    if n == 0 {
    } else {
      SectionsCounted(p, lines, n - 1);
      LeadOnce(p, lines, n - 1);
    }
  }

  lemma LeadOnce(p: Patterns, lines: seq<string>, n: nat)
    requires n < |lines|
    ensures |set k: nat | k < n + 1 && p.lead(lines[k])|
      == |set k: nat | k < n && p.lead(lines[k])| + if p.lead(lines[n]) then 1 else 0
  {
    var before := set k: nat | k < n && p.lead(lines[k]);
    assert (set k: nat | k < n + 1 && p.lead(lines[k])) == before + if p.lead(lines[n]) then {n} else {};
  }

  method LeadSections(p: Patterns, lines: seq<string>) returns (sections: seq<string>)
    requires Regular(p)
    ensures sections == Sections(p, lines, |lines|)
  {
    sections := [];
    var index := 0;
    while index < |lines|
      invariant index <= |lines| && sections == Sections(p, lines, index)
    {
      if p.lead(lines[index]) {
        var section: seq<string> := [];
        var end := index + 1;
        while end < |lines| && !p.heading(lines[end])
          invariant index + 1 <= end <= |lines| && section == lines[index + 1..end]
          invariant forall j :: index < j < end ==> !p.heading(lines[j]) && !p.lead(lines[j])
        {
          section := section + [lines[end]];
          end := end + 1;
        }
        SectionTaken(p, lines, index, end);
        sections := sections + [Join(section)];
        index := end - 1;
      } else {
        NoLeadBetween(p, lines, index, index + 1);
      }
      index := index + 1;
    }
  }

  // ----- rows of source tables ----------------------------------------------

  // A line that can open a table of sources: a separator line follows it.
  ghost predicate Header(p: Patterns, lines: seq<string>, h: nat) {
    h + 1 < |lines| && p.table(lines[h]) && p.source(lines[h]) && p.separator(lines[h + 1])
  }

  // Line k belongs to the run of table lines that starts two lines after h.
  ghost predicate Covers(p: Patterns, lines: seq<string>, h: nat, k: nat) {
    h + 2 <= k < |lines| && forall j :: h + 2 <= j <= k ==> p.table(lines[j])
  }

  // A header opens a table unless it is itself a row of one that was opened before.
  ghost predicate Opens(p: Patterns, lines: seq<string>, h: nat)
    decreases h
  {
    Header(p, lines, h) && forall g: nat :: g < h && Opens(p, lines, g) ==> !Covers(p, lines, g, h)
  }

  ghost predicate Claimed(p: Patterns, lines: seq<string>, k: nat) {
    k < |lines| && !p.separator(lines[k]) && exists h: nat :: h < k && Opens(p, lines, h) && Covers(p, lines, h, k)
  }

  // The claimed lines before line n, in order and once each.
  ghost function Rows(p: Patterns, lines: seq<string>, n: nat): seq<string>
    requires n <= |lines|
  {
    if n == 0 then []
    else Rows(p, lines, n - 1) + if Claimed(p, lines, n - 1) then [lines[n - 1]] else []
  }

  // The place of a claimed line among the rows is the number of claimed lines before it, and there
  // are no other rows.
  lemma {:induction false} RowAt(p: Patterns, lines: seq<string>, k: nat, n: nat)
    requires k < n <= |lines| && Claimed(p, lines, k)
    ensures |Rows(p, lines, k)| < |Rows(p, lines, n)| && Rows(p, lines, n)[|Rows(p, lines, k)|] == lines[k]
  {
    if k < n - 1 {
      RowAt(p, lines, k, n - 1);
    }
  }

  lemma {:induction false} RowsCounted(p: Patterns, lines: seq<string>, n: nat)
    requires n <= |lines|
    ensures |Rows(p, lines, n)| == |ClaimedBefore(p, lines, n)|
  {
    if n == 0 {
    } else {
      RowsCounted(p, lines, n - 1);
      ClaimedOnce(p, lines, n - 1, Claimed(p, lines, n - 1));
      RowAdded(p, lines, n - 1, Claimed(p, lines, n - 1));
    }
  }

  lemma RowAdded(p: Patterns, lines: seq<string>, n: nat, claimed: bool)
    requires n < |lines| && claimed == Claimed(p, lines, n)
    ensures |Rows(p, lines, n + 1)| == |Rows(p, lines, n)| + if claimed then 1 else 0
  {}

  lemma ClaimedOnce(p: Patterns, lines: seq<string>, n: nat, claimed: bool)
    requires claimed == Claimed(p, lines, n)
    ensures |ClaimedBefore(p, lines, n + 1)| == |ClaimedBefore(p, lines, n)| + if claimed then 1 else 0
  {
    assert n !in ClaimedBefore(p, lines, n);
  }

  ghost function ClaimedBefore(p: Patterns, lines: seq<string>, n: nat): (r: set<nat>)
    ensures forall k: nat :: k in r <==> k < n && Claimed(p, lines, k)
  {
    if n == 0 then {}
    else ClaimedBefore(p, lines, n - 1) + if Claimed(p, lines, n - 1) then {n - 1} else {}
  }

  // No table opened before line n goes on at line n or later.
  ghost predicate Outside(p: Patterns, lines: seq<string>, n: nat) {
    forall h: nat, k: nat :: h < n <= k && Opens(p, lines, h) ==> !Covers(p, lines, h, k)
  }

  lemma OutsideUnclaimed(p: Patterns, lines: seq<string>, n: nat)
    requires n < |lines| && Outside(p, lines, n)
    ensures Rows(p, lines, n + 1) == Rows(p, lines, n)
    ensures Opens(p, lines, n) <==> Header(p, lines, n)
  {
    assert !Claimed(p, lines, n);
  }

  lemma NoHeaderHere(p: Patterns, lines: seq<string>, n: nat)
    requires n < |lines| && Outside(p, lines, n) && !Header(p, lines, n)
    ensures Outside(p, lines, n + 1)
  {}

  lemma SeparatorUnclaimed(p: Patterns, lines: seq<string>, h: nat)
    requires Outside(p, lines, h) && Header(p, lines, h)
    ensures Rows(p, lines, h + 2) == Rows(p, lines, h)
  {
    OutsideUnclaimed(p, lines, h);
    assert !Claimed(p, lines, h + 1);
  }

  // Behind the run of a table the scan is outside again: nothing in the run opens a table, nor
  // do the separator before it and the line after it.
  lemma TableEnds(p: Patterns, lines: seq<string>, h: nat, end: nat)
    requires Regular(p) && Outside(p, lines, h) && Opens(p, lines, h)
    requires h + 2 <= end < |lines| && !p.table(lines[end])
    requires forall j :: h + 2 <= j < end ==> p.table(lines[j])
    ensures Outside(p, lines, end + 1)
    ensures Rows(p, lines, end + 1) == Rows(p, lines, end)
  {
    forall g: nat | h + 2 <= g < end ensures !Opens(p, lines, g) {
      assert Covers(p, lines, h, g);
    }
    assert forall g: nat, k: nat :: g < end + 1 <= k && Opens(p, lines, g) ==> !Covers(p, lines, g, k);
    assert !Claimed(p, lines, end);
  }

  method SourceRows(p: Patterns, lines: seq<string>) returns (rows: seq<string>)
    requires Regular(p)
    ensures rows == Rows(p, lines, |lines|)
  {
    rows := [];
    var index := 0;
    while index < |lines| - 1
      invariant index <= |lines| ==> rows == Rows(p, lines, index) && Outside(p, lines, index)
      invariant index > |lines| ==> rows == Rows(p, lines, |lines|)
      decreases |lines| - index
    {
      ghost var h := index;
      OutsideUnclaimed(p, lines, h);
      if p.table(lines[index]) && p.source(lines[index]) && p.separator(lines[index + 1]) {
        SeparatorUnclaimed(p, lines, h);
        index := index + 2;
        while index < |lines| && p.table(lines[index])
          invariant h + 2 <= index <= |lines| && rows == Rows(p, lines, index)
          invariant forall j :: h + 2 <= j < index ==> p.table(lines[j])
        {
          assert Covers(p, lines, h, index);
          if !p.separator(lines[index]) {
            rows := rows + [lines[index]];
          }
          index := index + 1;
        }
        if index < |lines| {
          TableEnds(p, lines, h, index);
        }
      } else {
        NoHeaderHere(p, lines, h);
      }
      index := index + 1;
    }
    if index + 1 == |lines| {
      OutsideUnclaimed(p, lines, index);
    }
  }

  // What is claimed, pattern by pattern: a table line, no separator, in an unbroken run of table
  // lines behind a separator behind a table line that mentions a source.
  lemma ClaimedLines(p: Patterns, lines: seq<string>, k: nat) returns (h: nat)
    requires Claimed(p, lines, k)
    ensures h + 2 <= k < |lines| && p.table(lines[k]) && !p.separator(lines[k])
    ensures p.table(lines[h]) && p.source(lines[h]) && p.separator(lines[h + 1])
    ensures forall j :: h + 2 <= j <= k ==> p.table(lines[j])
  {
    h :| h < k && Opens(p, lines, h) && Covers(p, lines, h, k);
  }

  // And the first such line of a text does claim the run below its separator.
  lemma FirstHeaderClaims(p: Patterns, lines: seq<string>, h: nat, k: nat)
    requires h + 2 <= k < |lines| && p.table(lines[h]) && p.source(lines[h]) && p.separator(lines[h + 1])
    requires forall g :: 0 <= g < h ==> !(p.table(lines[g]) && p.source(lines[g]))
    requires (forall j :: h + 2 <= j <= k ==> p.table(lines[j])) && !p.separator(lines[k])
    ensures Claimed(p, lines, k)
  {
    forall g: nat | g < h ensures !Opens(p, lines, g) {
      assert !Header(p, lines, g);
    }
    assert Opens(p, lines, h) && Covers(p, lines, h, k);
  }

  // ----- headers among the rows ---------------------------------------------

  // The plain reading: any header claims the run below it.
  ghost predicate Below(p: Patterns, lines: seq<string>, k: nat) {
    exists h: nat :: h < k && Header(p, lines, h) && Covers(p, lines, h, k)
  }

  ghost predicate DataRow(p: Patterns, lines: seq<string>, h: nat, k: nat) {
    Covers(p, lines, h, k) && !p.separator(lines[k])
  }

  // A header that stands among the rows of another one, with rows of its own behind a separator
  // that is no table line: the scan passes over that separator and never comes to the header.
  ghost predicate PassedOver(p: Patterns, lines: seq<string>, h: nat) {
    && Header(p, lines, h) && !p.table(lines[h + 1])
    && (exists k: nat :: DataRow(p, lines, h, k))
    && exists g: nat :: g < h && Header(p, lines, g) && Covers(p, lines, g, h)
  }

  ghost predicate NonePassedOver(p: Patterns, lines: seq<string>, n: nat) {
    forall h: nat :: h < n ==> !PassedOver(p, lines, h)
  }

  // Up to the first header that is passed over, whatever stands below a header stands below one
  // that opens a table.
  lemma Opener(p: Patterns, lines: seq<string>, h: nat, k: nat) returns (g: nat)
    requires Header(p, lines, h) && DataRow(p, lines, h, k) && !PassedOver(p, lines, h)
    ensures g <= h && Opens(p, lines, g) && Covers(p, lines, g, k)
  {
    if Opens(p, lines, h) {
      g := h;
    } else {
      g :| g < h && Opens(p, lines, g) && Covers(p, lines, g, h);
    }
  }

  lemma AllBelowClaimed(p: Patterns, lines: seq<string>, k: nat)
    requires NonePassedOver(p, lines, |lines|) && k < |lines| && !p.separator(lines[k])
    ensures Claimed(p, lines, k) <==> Below(p, lines, k)
  {
    if Below(p, lines, k) {
      var h: nat :| h < k && Header(p, lines, h) && Covers(p, lines, h, k);
      assert DataRow(p, lines, h, k);
      var g := Opener(p, lines, h, k);
    }
  }

  // The first header that is passed over does not open a table...
  lemma PassedOverStaysShut(p: Patterns, lines: seq<string>, h: nat)
    requires Regular(p) && PassedOver(p, lines, h) && NonePassedOver(p, lines, h)
    ensures !Opens(p, lines, h)
  {
    var g: nat :| g < h && Header(p, lines, g) && Covers(p, lines, g, h);
    assert DataRow(p, lines, g, h);
    var f := Opener(p, lines, g, h);
  }

  // ... so the first of its rows is below a header and not claimed.
  lemma FirstRowUnclaimed(p: Patterns, lines: seq<string>, h: nat, k: nat)
    requires Regular(p) && PassedOver(p, lines, h) && NonePassedOver(p, lines, h)
    requires DataRow(p, lines, h, k) && forall j: nat :: j < k ==> !DataRow(p, lines, h, j)
    ensures Below(p, lines, k) && !Claimed(p, lines, k)
  {
    PassedOverStaysShut(p, lines, h);
    assert !p.table(lines[h + 1]);
    forall f: nat | f < k && Opens(p, lines, f) ensures !Covers(p, lines, f, k) {
      assert f != h + 1;
      assert h + 2 <= f ==> Covers(p, lines, h, f) == DataRow(p, lines, h, f);
    }
  }

  lemma {:induction false} FirstRow(p: Patterns, lines: seq<string>, h: nat, k: nat) returns (first: nat)
    requires DataRow(p, lines, h, k)
    ensures DataRow(p, lines, h, first) && forall j: nat :: j < first ==> !DataRow(p, lines, h, j)
  {
    if j: nat :| j < k && DataRow(p, lines, h, j) {
      first := FirstRow(p, lines, h, j);
    } else {
      first := k;
    }
  }

  lemma {:induction false} FirstPassedOver(p: Patterns, lines: seq<string>, h: nat) returns (first: nat)
    requires PassedOver(p, lines, h)
    ensures PassedOver(p, lines, first) && NonePassedOver(p, lines, first)
  {
    if g: nat :| g < h && PassedOver(p, lines, g) {
      first := FirstPassedOver(p, lines, g);
    } else {
      first := h;
    }
  }

  ghost predicate ReadPlainly(p: Patterns, lines: seq<string>, k: nat) {
    k < |lines| && !p.separator(lines[k]) ==> (Claimed(p, lines, k) <==> Below(p, lines, k))
  }

  // Every row below a source header is claimed exactly when no header is passed over.
  lemma PlainReadingIsExact(p: Patterns, lines: seq<string>)
    requires Regular(p)
    ensures (forall k: nat :: ReadPlainly(p, lines, k)) <==> forall h: nat :: !PassedOver(p, lines, h)
  {
    if h: nat :| PassedOver(p, lines, h) {
      var first := FirstPassedOver(p, lines, h);
      var row: nat :| DataRow(p, lines, first, row);
      var k := FirstRow(p, lines, first, row);
      FirstRowUnclaimed(p, lines, first, k);
      assert !ReadPlainly(p, lines, k);
    } else {
      forall k: nat ensures ReadPlainly(p, lines, k) {
        if k < |lines| && !p.separator(lines[k]) {
          AllBelowClaimed(p, lines, k);
        }
      }
    }
  }

  // In particular where every separator below a header is a table line itself.
  lemma EveryHeaderClaims(p: Patterns, lines: seq<string>, k: nat)
    requires forall h: nat :: Header(p, lines, h) ==> p.table(lines[h + 1])
    requires k < |lines| && !p.separator(lines[k])
    ensures Claimed(p, lines, k) <==> exists h: nat :: h < k && Header(p, lines, h) && Covers(p, lines, h, k)
  {
    AllBelowClaimed(p, lines, k);
  }

  // The smallest case: the second header is the only row of the first one, its separator has no
  // bars, and its own row is claimed by nobody.
  lemma RowEscapes(p: Patterns)
    requires Regular(p) && p.table("|source") && p.source("|source") && p.table("|x") && !p.separator("|x")
    requires p.separator("---") && !p.table("---")
    ensures var lines := ["|source", "---", "|source", "---", "|x"];
            Header(p, lines, 2) && Covers(p, lines, 2, 4) && !Claimed(p, lines, 4) && Rows(p, lines, 5) == ["|source"]
  {
    var lines := ["|source", "---", "|source", "---", "|x"];
    assert Opens(p, lines, 0) && Covers(p, lines, 0, 2);
    assert !Claimed(p, lines, 0) && !Claimed(p, lines, 1) && !Claimed(p, lines, 3) && Claimed(p, lines, 2);
    assert !Claimed(p, lines, 4) by {
      assert !Opens(p, lines, 1) && !Opens(p, lines, 2) && !Opens(p, lines, 3) && !Covers(p, lines, 0, 4);
    }
    assert Rows(p, lines, 1) == [] && Rows(p, lines, 2) == [];
    assert Rows(p, lines, 3) == [lines[2]] && Rows(p, lines, 4) == [lines[2]];
  }

  // ----- the operation ------------------------------------------------------

  method CitationClaims(p: Patterns, lines: seq<string>, allowBulletFallback: bool) returns (claims: seq<string>)
    requires Regular(p)
    ensures claims ==
      if exists i :: 0 <= i < |lines| && p.lead(lines[i]) then Sections(p, lines, |lines|)
      else if exists k :: Claimed(p, lines, k) then Rows(p, lines, |lines|)
      else if allowBulletFallback then Filter(p.bullet, lines)
      else []
  {
    var leadSections := LeadSections(p, lines);
    SectionsNonEmpty(p, lines, |lines|);
    if leadSections != [] {
      return leadSections;
    }
    var rows := SourceRows(p, lines);
    RowsNonEmpty(p, lines, |lines|);
    return if rows != [] then rows else if allowBulletFallback then Filter(p.bullet, lines) else [];
  }

  lemma {:induction false} RowsNonEmpty(p: Patterns, lines: seq<string>, n: nat)
    requires n <= |lines|
    ensures Rows(p, lines, n) != [] <==> exists k: nat :: k < n && Claimed(p, lines, k)
  {
    if n == 0 {
    } else {
      RowsNonEmpty(p, lines, n - 1);
    }
  }
}
