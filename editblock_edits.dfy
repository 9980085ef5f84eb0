/**
  CodeAutoMergeEditBlock.get_edits: every entry cut out of the reply is scanned line by line with
  two flags, in_head and in_updated; lines after "<<<<<<< SEARCH" are collected as the head,
  lines after "=======" as the update, and the three marker lines themselves are dropped.
 */
module EditExtraction {
  import opened Strings
  import opened Seqs
  import P = EditBlockParser

  const Head := "<<<<<<< SEARCH"
  const Divider := "======="
  const Updated := ">>>>>>> REPLACE"

  /** The (path, head, update) triple get_edits returns for one entry. */
  datatype Edit = Edit(path: string, head: string, update: string)

  /** What the inner loop makes of one line: one of the three markers, or text. */
  datatype Role = HeadMarker | DividerMarker | UpdatedMarker | Text(line: string)

  /** The loop variables of the inner loop of get_edits. */
  datatype Scan = Scan(inHead: bool, inUpdated: bool, heads: seq<string>, updates: seq<string>)

  const Fresh := Scan(false, false, [], [])

  /** A line whose stripped form is one of the three markers. */
  predicate IsMarker(line: string)
  {
    Trim(line) == Head || Trim(line) == Divider || Trim(line) == Updated
  }

  /** The tests of the inner loop, in their order. */
  function RoleOf(line: string): (r: Role)
    ensures r.Text? <==> !IsMarker(line)
    ensures r.Text? ==> r.line == line
  {
    if Trim(line) == Head then HeadMarker
    else if Trim(line) == Divider then DividerMarker
    else if Trim(line) == Updated then UpdatedMarker
    else Text(line)
  }

  function Roles(lines: seq<string>): (r: seq<Role>)
    ensures |r| == |lines| && forall k :: 0 <= k < |lines| ==> r[k] == RoleOf(lines[k])
  {
    Map(RoleOf, lines)
  }

  /** One iteration of the inner loop: a marker sets the flags, a text line goes where the flags say. */
  function ScanStep(sc: Scan, r: Role): Scan
  {
    match r
    case HeadMarker => sc.(inHead := true)
    case DividerMarker => sc.(inHead := false, inUpdated := true)
    case UpdatedMarker => sc.(inHead := false, inUpdated := false)
    case Text(line) =>
      sc.(heads := if sc.inHead then sc.heads + [line] else sc.heads,
          updates := if sc.inUpdated then sc.updates + [line] else sc.updates)
  }

  /** The roles fed through the inner loop in order. */
  function ScanAll(rs: seq<Role>, sc: Scan): Scan
    decreases |rs|
  {
    if rs == [] then sc else ScanStep(ScanAll(rs[..|rs| - 1], sc), rs[|rs| - 1])
  }

  /** The triple for one entry: its path, and the collected lines joined with "\n". */
  function EditOf(e: P.PathAndCode): Edit
  {
    var sc := ScanAll(Roles(SplitLines(e.content)), Fresh);
    Edit(e.path, Join(sc.heads, '\n'), Join(sc.updates, '\n'))
  }

  function EditsFrom(es: seq<P.PathAndCode>): (r: seq<Edit>)
    ensures |r| == |es| && forall k :: 0 <= k < |es| ==> r[k] == EditOf(es[k])
  {
    Map(EditOf, es)
  }

  /** get_edits as a function of the reply. */
  function EditsOf(fence0: string, fence1: string, content: string): seq<Edit>
  {
    EditsFrom(P.Parse(fence0, fence1, content))
  }

  lemma ScanLast(rs: seq<Role>, j: nat, sc: Scan)
    requires j < |rs|
    ensures ScanAll(rs[..j + 1], sc) == ScanStep(ScanAll(rs[..j], sc), rs[j])
  {
    assert rs[..j + 1][..j] == rs[..j];
  }

  lemma EditsFromLast(es: seq<P.PathAndCode>, i: nat)
    requires i < |es|
    ensures EditsFrom(es[..i + 1]) == EditsFrom(es[..i]) + [EditOf(es[i])]
  {
    MapLast(EditOf, es, i);
  }

  /** The inner loop of get_edits, for one entry. */
  method ExtractEdit(edit: P.PathAndCode) returns (triple: Edit)
    ensures triple == EditOf(edit)
  {
    var heads: seq<string> := [];
    var updates: seq<string> := [];
    var c := edit.content;
    var inHead := false;
    var inUpdated := false;
    var lines := SplitLines(c);
    ghost var roles := Roles(lines);
    ghost var sc := Fresh;
    for j := 0 to |lines|
      invariant sc == ScanAll(roles[..j], Fresh)
      invariant sc == Scan(inHead, inUpdated, heads, updates)
    {
      var line := lines[j];
      assert roles[j] == RoleOf(line);
      ScanLast(roles, j, Fresh);
      if Trim(line) == Head {
        inHead := true;
      } else if Trim(line) == Divider {
        inHead := false;
        inUpdated := true;
      } else if Trim(line) == Updated {
        inHead := false;
        inUpdated := false;
      } else {
        if inHead {
          heads := heads + [line];
        }
        if inUpdated {
          updates := updates + [line];
        }
      }
      sc := ScanStep(sc, roles[j]);
    }
    assert roles[..|lines|] == roles;
    triple := Edit(edit.path, Join(heads, '\n'), Join(updates, '\n'));
  }

  /** get_edits: parse the reply, then scan each entry's lines with the two flags. */
  method GetEdits(fence0: string, fence1: string, content: string) returns (result: seq<Edit>)
    ensures result == EditsOf(fence0, fence1, content)
  {
    var edits := P.ParseWholeText(fence0, fence1, content);
    result := [];
    for i := 0 to |edits|
      invariant result == EditsFrom(edits[..i])
    {
      var triple := ExtractEdit(edits[i]);
      EditsFromLast(edits, i);
      result := result + [triple];
    }
    assert edits[..|edits|] == edits;
  }

  /** get_edits returns one triple per parsed entry, in the same order and with the same path. */
  lemma EditsFollowEntries(fence0: string, fence1: string, content: string)
    ensures var entries := P.Parse(fence0, fence1, content);
      var edits := EditsOf(fence0, fence1, content);
      |edits| == |entries| && forall k :: 0 <= k < |edits| ==> edits[k].path == entries[k].path
  {
  }

  /** Scanning x and then y is scanning x + y: several sections in one entry are collected in turn. */
  lemma {:induction false} ScanConcat(x: seq<Role>, y: seq<Role>, sc: Scan)
    ensures ScanAll(x + y, sc) == ScanAll(y, ScanAll(x, sc))
    decreases |y|
  {
    if y == [] {
      assert x + y == x;
    } else {
      ScanConcat(x, y[..|y| - 1], sc);
      assert (x + y)[..|x + y| - 1] == x + y[..|y| - 1];
    }
  }

  /** Only text lines are collected, so no marker line is ever part of a head or an update. */
  lemma {:induction false} CollectedLinesAreText(rs: seq<Role>)
    ensures var sc := ScanAll(rs, Fresh);
      && (forall l :: l in sc.heads ==> Text(l) in rs)
      && (forall l :: l in sc.updates ==> Text(l) in rs)
    decreases |rs|
  {
    if rs != [] {
      var init := rs[..|rs| - 1];
      CollectedLinesAreText(init);
      forall r | r in init ensures r in rs {
        var k :| 0 <= k < |init| && init[k] == r;
        assert rs[k] == r;
      }
    }
  }

  /** Every head and update line is a line of the entry's content whose stripped form is no marker. */
  lemma HeadsAndUpdatesFromContent(content: string)
    ensures var sc := ScanAll(Roles(SplitLines(content)), Fresh);
      && (forall l :: l in sc.heads ==> l in SplitLines(content) && !IsMarker(l))
      && (forall l :: l in sc.updates ==> l in SplitLines(content) && !IsMarker(l))
  {
    var lines := SplitLines(content);
    var rs := Roles(lines);
    CollectedLinesAreText(rs);
    forall l | Text(l) in rs ensures l in lines && !IsMarker(l) {
      TextRoleFromLine(lines, rs, l);
    }
  }

  /** A text role among the roles of some lines is one of those lines, and no marker. */
  lemma TextRoleFromLine(lines: seq<string>, rs: seq<Role>, l: string)
    requires rs == Roles(lines) && Text(l) in rs
    ensures l in lines && !IsMarker(l)
  {
    var k :| 0 <= k < |rs| && rs[k] == Text(l);
    var line := lines[k];
    assert rs[k] == RoleOf(line);
    TextRoleLine(line, l);
  }

  lemma TextRoleLine(line: string, l: string)
    requires RoleOf(line) == Text(l)
    ensures l == line && !IsMarker(line)
  {
  }

  function TextRoles(lines: seq<string>): seq<Role>
  {
    seq(|lines|, k requires 0 <= k < |lines| => Text(lines[k]))
  }

  /** Text lines go to the head while in_head is set and to the update while in_updated is set. */
  lemma {:induction false} ScanText(lines: seq<string>, sc: Scan)
    ensures var r := ScanAll(TextRoles(lines), sc);
      && r.inHead == sc.inHead && r.inUpdated == sc.inUpdated
      && r.heads == (if sc.inHead then sc.heads + lines else sc.heads)
      && r.updates == (if sc.inUpdated then sc.updates + lines else sc.updates)
    decreases |lines|
  {
    if lines != [] {
      var init := lines[..|lines| - 1];
      assert TextRoles(lines)[..|lines| - 1] == TextRoles(init);
      ScanText(init, sc);
      assert init + [lines[|lines| - 1]] == lines;
    }
  }

  /** The lines of one SEARCH/REPLACE section. */
  function SectionLines(h: seq<string>, u: seq<string>): seq<string>
  {
    [Head] + h + [Divider] + u + [Updated]
  }

  /** A line with no surrounding whitespace is classified by what it is. */
  lemma RoleOfTrimmed(s: string)
    requires Trimmed(s)
    ensures RoleOf(s) == if s == Head then HeadMarker else if s == Divider then DividerMarker
                         else if s == Updated then UpdatedMarker else Text(s)
  {
    TrimOfTrimmed(s);
  }

  lemma HeadIsMarker()
    ensures RoleOf(Head) == HeadMarker
  {
    RoleOfTrimmed(Head);
  }

  lemma DividerIsMarker()
    ensures RoleOf(Divider) == DividerMarker
  {
    assert Divider != Head by { assert |Divider| != |Head|; }
    RoleOfTrimmed(Divider);
  }

  lemma UpdatedIsMarker()
    ensures RoleOf(Updated) == UpdatedMarker
  {
    assert Updated != Head by { assert Updated[0] != Head[0]; }
    assert Updated != Divider by { assert |Updated| != |Divider|; }
    RoleOfTrimmed(Updated);
  }

  lemma RolesConcat(x: seq<string>, y: seq<string>)
    ensures Roles(x + y) == Roles(x) + Roles(y)
  {
    MapAppend(RoleOf, x, y);
  }

  lemma RolesOfText(lines: seq<string>)
    requires forall k :: 0 <= k < |lines| ==> !IsMarker(lines[k])
    ensures Roles(lines) == TextRoles(lines)
  {
  }

  lemma RolesOfSection(h: seq<string>, u: seq<string>)
    requires forall k :: 0 <= k < |h| ==> !IsMarker(h[k])
    requires forall k :: 0 <= k < |u| ==> !IsMarker(u[k])
    ensures Roles(SectionLines(h, u)) == [HeadMarker] + TextRoles(h) + [DividerMarker] + TextRoles(u) + [UpdatedMarker]
  {
    HeadIsMarker();
    DividerIsMarker();
    UpdatedIsMarker();
    RolesAround(Head, Divider, Updated, h, u);
  }

  /** The section shape, for any three lines classified as the three markers. */
  lemma RolesAround(hm: string, dm: string, um: string, h: seq<string>, u: seq<string>)
    requires RoleOf(hm) == HeadMarker && RoleOf(dm) == DividerMarker && RoleOf(um) == UpdatedMarker
    requires forall k :: 0 <= k < |h| ==> !IsMarker(h[k])
    requires forall k :: 0 <= k < |u| ==> !IsMarker(u[k])
    ensures Roles([hm] + h + [dm] + u + [um]) == [HeadMarker] + TextRoles(h) + [DividerMarker] + TextRoles(u) + [UpdatedMarker]
  {
    RolesOfText(h);
    RolesOfText(u);
    RolesOne(hm);
    RolesOne(dm);
    RolesOne(um);
    RolesOfFive([hm], h, [dm], u, [um]);
  }

  lemma RolesOne(line: string)
    ensures Roles([line]) == [RoleOf(line)]
  {
  }

  lemma RolesOfFive(a: seq<string>, b: seq<string>, c: seq<string>, d: seq<string>, e: seq<string>)
    ensures Roles(a + b + c + d + e) == Roles(a) + Roles(b) + Roles(c) + Roles(d) + Roles(e)
  {
    RolesConcat(a + b + c + d, e);
    RolesConcat(a + b + c, d);
    RolesConcat(a + b, c);
    RolesConcat(a, b);
  }

  /** A closed section adds its SEARCH lines to the head and its REPLACE lines to the update, and leaves both flags off. */
  lemma ScanSection(h: seq<string>, u: seq<string>, sc: Scan)
    requires !sc.inHead && !sc.inUpdated
    ensures ScanAll([HeadMarker] + TextRoles(h) + [DividerMarker] + TextRoles(u) + [UpdatedMarker], sc)
         == sc.(heads := sc.heads + h, updates := sc.updates + u)
  {
    var s1 := ScanAll([HeadMarker], sc);
    assert [HeadMarker][..0] == [];
    ScanText(h, s1);
    ScanConcat([HeadMarker], TextRoles(h), sc);
    var s2 := ScanAll([HeadMarker] + TextRoles(h), sc);
    assert [DividerMarker][..0] == [];
    ScanConcat([HeadMarker] + TextRoles(h), [DividerMarker], sc);
    var s3 := ScanAll([HeadMarker] + TextRoles(h) + [DividerMarker], sc);
    ScanText(u, s3);
    ScanConcat([HeadMarker] + TextRoles(h) + [DividerMarker], TextRoles(u), sc);
    assert [UpdatedMarker][..0] == [];
    ScanConcat([HeadMarker] + TextRoles(h) + [DividerMarker] + TextRoles(u), [UpdatedMarker], sc);
  }

  /** The content one edit is written as: a single section holding the lines of its head and update. */
  function SectionText(e: Edit): string
  {
    Join(SectionLines(Split(e.head, '\n'), Split(e.update, '\n')), '\n')
  }

  /** An edit whose head and update lines are neither markers nor fences, with a one-line stripped path. */
  predicate Renderable(e: Edit)
  {
    && Trimmed(e.path) && '\n' !in e.path
    && (forall l :: l in Split(e.head, '\n') ==> !IsMarker(l) && !StartsWith(l, P.DefaultFence))
    && (forall l :: l in Split(e.update, '\n') ==> !IsMarker(l) && !StartsWith(l, P.DefaultFence))
  }

  lemma SectionSplits(e: Edit)
    requires Renderable(e)
    ensures Split(SectionText(e), '\n') == SectionLines(Split(e.head, '\n'), Split(e.update, '\n'))
    ensures SplitLines(SectionText(e)) == SectionLines(Split(e.head, '\n'), Split(e.update, '\n'))
  {
    var lines := SectionLines(Split(e.head, '\n'), Split(e.update, '\n'));
    forall k | 0 <= k < |lines| ensures '\n' !in lines[k] {
    }
    SplitLinesJoin(lines);
    SplitJoin(lines, '\n');
  }

  lemma EditOfLines(e: P.PathAndCode, lines: seq<string>)
    requires SplitLines(e.content) == lines
    ensures var sc := ScanAll(Roles(lines), Fresh);
      EditOf(e) == Edit(e.path, Join(sc.heads, '\n'), Join(sc.updates, '\n'))
  {
  }

  /** Scanning the section written for an edit gives back the edit. */
  lemma EditOfSection(e: Edit)
    requires Renderable(e)
    ensures EditOf(P.PathAndCode(e.path, SectionText(e))) == e
  {
    var h := Split(e.head, '\n');
    var u := Split(e.update, '\n');
    var entry := P.PathAndCode(e.path, SectionText(e));
    SectionSplits(e);
    EditOfLines(entry, SectionLines(h, u));
    forall k | 0 <= k < |h| ensures !IsMarker(h[k]) {
      assert h[k] in h;
    }
    forall k | 0 <= k < |u| ensures !IsMarker(u[k]) {
      assert u[k] in u;
    }
    RolesOfSection(h, u);
    ScanSection(h, u, Fresh);
    var sc := ScanAll(Roles(SectionLines(h, u)), Fresh);
    assert sc.heads == h && sc.updates == u;
    JoinSplit(e.head, '\n');
    JoinSplit(e.update, '\n');
  }

  /** The entry an edit is written as. */
  function EntryFor(e: Edit): P.PathAndCode
  {
    P.PathAndCode(e.path, SectionText(e))
  }

  function EntriesFor(edits: seq<Edit>): (r: seq<P.PathAndCode>)
    ensures |r| == |edits| && forall k :: 0 <= k < |edits| ==> r[k] == EntryFor(edits[k])
  {
    Map(EntryFor, edits)
  }

  lemma EntryForWritable(e: Edit)
    requires Renderable(e)
    ensures P.Writable(EntryFor(e))
  {
    SectionSplits(e);
    var lines := SectionLines(Split(e.head, '\n'), Split(e.update, '\n'));
    forall l | l in lines ensures !StartsWith(l, P.DefaultFence) {
      if l == Head || l == Divider || l == Updated {
        assert l[0] != P.DefaultFence[0];
      }
    }
  }

  /**
    A reply holding one fenced "##File:" block per edit, each with one SEARCH/REPLACE section,
    gives back exactly those edits, in order.
   */
  lemma GetEditsRoundTrip(edits: seq<Edit>)
    requires forall k :: 0 <= k < |edits| ==> Renderable(edits[k])
    ensures EditsOf(P.DefaultFence, P.DefaultFence, P.Reply(EntriesFor(edits))) == edits
  {
    var entries := EntriesFor(edits);
    forall k | 0 <= k < |entries| ensures P.Writable(entries[k]) {
      EntryForWritable(edits[k]);
    }
    P.ParseReply(entries);
    forall k | 0 <= k < |edits| ensures EditOf(entries[k]) == edits[k] {
      EditOfSection(edits[k]);
    }
  }
}
