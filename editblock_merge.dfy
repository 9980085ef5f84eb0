/**
  The planning loop of CodeAutoMergeEditBlock.merge_code: the edits are folded, in order, over a
  path -> content map (file_content_mapping). A missing file is created with the update; an
  existing file has the first occurrence of the head replaced by the update, or the update
  appended when the head is empty; an edit that changes nothing is set aside as unmerged.
  The file system is the map `disk`: a path is in it exactly when the file exists.
 */
module MergePlanning {
  import opened Results
  import opened Strings
  import E = EditExtraction

  /** One entry of changes_to_make: the path, its content before (None for a new file) and after. */
  datatype Change = Change(path: string, before: Option<string>, after: string)

  /** The loop variables: file_content_mapping, changes_to_make, unmerged_blocks and changes_made. */
  datatype Plan = Plan(contents: map<string, string>, changes: seq<Change>, unmerged: seq<E.Edit>, changesMade: bool)

  const EmptyPlan := Plan(map[], [], [], false)

  /** new_content for an existing file: `existing.replace(head, update, 1)` if head else `existing + "\n" + update`. */
  function Apply(existing: string, head: string, update: string): string
  {
    if head != [] then ReplaceFirst(existing, head, update) else existing + "\n" + update
  }

  /** One iteration of the planning loop. */
  function PlanStep(disk: map<string, string>, p: Plan, e: E.Edit): Plan
  {
    if e.path !in disk then
      p.(changes := p.changes + [Change(e.path, None, e.update)],
         contents := p.contents[e.path := e.update],
         changesMade := true)
    else
      var existing := if e.path in p.contents then p.contents[e.path] else disk[e.path];
      var newContent := Apply(existing, e.head, e.update);
      if newContent != existing then
        p.(changes := p.changes + [Change(e.path, Some(existing), newContent)],
           contents := p.contents[e.path := newContent],
           changesMade := true)
      else
        p.(contents := p.contents[e.path := existing], unmerged := p.unmerged + [e])
  }

  /** The edits fed through the planning loop in order. */
  function PlanAll(disk: map<string, string>, edits: seq<E.Edit>): Plan
    decreases |edits|
  {
    if edits == [] then EmptyPlan
    else PlanStep(disk, PlanAll(disk, edits[..|edits| - 1]), edits[|edits| - 1])
  }

  /** The plan merge_code makes for a reply. */
  function PlanOf(fence0: string, fence1: string, disk: map<string, string>, content: string): Plan
  {
    PlanAll(disk, E.EditsOf(fence0, fence1, content))
  }

  lemma PlanLast(disk: map<string, string>, edits: seq<E.Edit>, i: nat)
    requires i < |edits|
    ensures PlanAll(disk, edits[..i + 1]) == PlanStep(disk, PlanAll(disk, edits[..i]), edits[i])
  {
    assert edits[..i + 1][..i] == edits[..i];
  }

  /** merge_code up to the first commit: get the edits, then fold them over file_content_mapping. */
  method PlanMerge(fence0: string, fence1: string, disk: map<string, string>, content: string)
    returns (fileContentMapping: map<string, string>, changesToMake: seq<Change>, unmergedBlocks: seq<E.Edit>, changesMade: bool)
    ensures Plan(fileContentMapping, changesToMake, unmergedBlocks, changesMade) == PlanOf(fence0, fence1, disk, content)
  {
    var codes := E.GetEdits(fence0, fence1, content);
    changesToMake := [];
    changesMade := false;
    unmergedBlocks := [];
    fileContentMapping := map[];
    for i := 0 to |codes|
      invariant Plan(fileContentMapping, changesToMake, unmergedBlocks, changesMade) == PlanAll(disk, codes[..i])
    {
      PlanLast(disk, codes, i);
      fileContentMapping, changesToMake, unmergedBlocks, changesMade :=
        PlanEdit(disk, fileContentMapping, changesToMake, unmergedBlocks, changesMade, codes[i]);
    }
    assert codes[..|codes|] == codes;
  }

  /** The body of the planning loop for one edit block. */
  method PlanEdit(disk: map<string, string>, fileContentMapping: map<string, string>, changesToMake: seq<Change>,
                  unmergedBlocks: seq<E.Edit>, changesMade: bool, block: E.Edit)
    returns (mapping': map<string, string>, changes': seq<Change>, unmerged': seq<E.Edit>, made': bool)
    ensures Plan(mapping', changes', unmerged', made')
         == PlanStep(disk, Plan(fileContentMapping, changesToMake, unmergedBlocks, changesMade), block)
  {
    mapping', changes', unmerged', made' := fileContentMapping, changesToMake, unmergedBlocks, changesMade;
    var filePath, head, update := block.path, block.head, block.update;
    if filePath !in disk {
      changes' := changes' + [Change(filePath, None, update)];
      mapping' := mapping'[filePath := update];
      made' := true;
    } else {
      if filePath !in mapping' {
        var temp := disk[filePath];
        mapping' := mapping'[filePath := temp];
      }
      var existingContent := mapping'[filePath];
      var newContent := if head != "" then ReplaceFirst(existingContent, head, update) else existingContent + "\n" + update;
      if newContent != existingContent {
        changes' := changes' + [Change(filePath, Some(existingContent), newContent)];
        mapping' := mapping'[filePath := newContent];
        made' := true;
      } else {
        unmerged' := unmerged' + [block];
      }
    }
  }

  /**
    Whether an edit to an existing file changes it: always when the head is empty (the update is
    appended after a newline), otherwise exactly when the head occurs and differs from the update.
   */
  lemma ApplyChanges(existing: string, head: string, update: string)
    ensures Apply(existing, head, update) != existing
        <==> head == [] || ((exists k :: OccursAt(existing, head, k)) && update != head)
  {
    if head != [] {
      ReplaceFirstChanges(existing, head, update);
    } else {
      assert |existing + "\n" + update| > |existing|;
    }
  }

  /** The content a path has after the given changes: the last change's result, else what is on disk. */
  function Latest(disk: map<string, string>, changes: seq<Change>, path: string): Option<string>
    decreases |changes|
  {
    if changes == [] then (if path in disk then Some(disk[path]) else None)
    else if changes[|changes| - 1].path == path then Some(changes[|changes| - 1].after)
    else Latest(disk, changes[..|changes| - 1], path)
  }

  /**
    The bookkeeping the planning loop keeps: every path in the map holds the content its changes
    lead to, each change to an existing file starts from the content left by the changes before it
    (a new file's change starts from nothing), and every change changes something.
   */
  ghost predicate Consistent(disk: map<string, string>, p: Plan)
  {
    && (forall path :: path in p.contents ==> Latest(disk, p.changes, path) == Some(p.contents[path]))
    && (forall i :: 0 <= i < |p.changes| ==>
          p.changes[i].before == (if p.changes[i].path in disk then Latest(disk, p.changes[..i], p.changes[i].path) else None))
    && (forall i :: 0 <= i < |p.changes| ==> p.changes[i].before != Some(p.changes[i].after))
    && (p.changesMade <==> p.changes != [])
  }

  lemma LatestAppend(disk: map<string, string>, changes: seq<Change>, c: Change, path: string)
    ensures Latest(disk, changes + [c], path) == if c.path == path then Some(c.after) else Latest(disk, changes, path)
  {
    assert (changes + [c])[..|changes|] == changes;
  }

  /** Paths that the plan has touched hold their latest content; others still read from disk. */
  lemma CurrentContent(disk: map<string, string>, p: Plan, path: string)
    requires Consistent(disk, p) && path in disk
    requires forall c :: c in p.changes && c.path == path ==> path in p.contents
    ensures Latest(disk, p.changes, path) == Some(if path in p.contents then p.contents[path] else disk[path])
  {
    if path !in p.contents {
      NoChangeKeepsDisk(disk, p.changes, path);
    }
  }

  lemma {:induction false} NoChangeKeepsDisk(disk: map<string, string>, changes: seq<Change>, path: string)
    requires forall c :: c in changes ==> c.path != path
    ensures Latest(disk, changes, path) == if path in disk then Some(disk[path]) else None
    decreases |changes|
  {
    if changes != [] {
      assert changes[|changes| - 1] in changes;
      NoChangeKeepsDisk(disk, changes[..|changes| - 1], path);
    }
  }

  /** Every change is to a path the map holds. */
  ghost predicate ChangedPathsMapped(p: Plan)
  {
    forall c :: c in p.changes ==> c.path in p.contents
  }

  /** Recording a change that starts from the latest content of its path keeps the bookkeeping. */
  lemma AppendConsistent(disk: map<string, string>, p: Plan, c: Change)
    requires Consistent(disk, p) && ChangedPathsMapped(p)
    requires c.before == (if c.path in disk then Latest(disk, p.changes, c.path) else None)
    requires c.before != Some(c.after)
    ensures var q := p.(changes := p.changes + [c], contents := p.contents[c.path := c.after], changesMade := true);
      Consistent(disk, q) && ChangedPathsMapped(q)
  {
    var q := p.(changes := p.changes + [c], contents := p.contents[c.path := c.after], changesMade := true);
    forall path | path in q.contents ensures Latest(disk, q.changes, path) == Some(q.contents[path]) {
      LatestAppend(disk, p.changes, c, path);
    }
    forall i | 0 <= i < |q.changes|
      ensures q.changes[i].before == (if q.changes[i].path in disk then Latest(disk, q.changes[..i], q.changes[i].path) else None)
    {
      if i < |p.changes| {
        assert q.changes[..i] == p.changes[..i];
      } else {
        assert q.changes[..i] == p.changes;
      }
    }
  }

  /** Loading a path's latest content into the map, or setting an edit aside, keeps the bookkeeping. */
  lemma LoadConsistent(disk: map<string, string>, p: Plan, path: string, content: string, e: E.Edit)
    requires Consistent(disk, p) && ChangedPathsMapped(p)
    requires Latest(disk, p.changes, path) == Some(content)
    ensures var q := p.(contents := p.contents[path := content], unmerged := p.unmerged + [e]);
      Consistent(disk, q) && ChangedPathsMapped(q)
  {
  }

  /** One iteration keeps the bookkeeping. */
  lemma StepConsistent(disk: map<string, string>, p: Plan, e: E.Edit)
    requires Consistent(disk, p) && ChangedPathsMapped(p)
    ensures Consistent(disk, PlanStep(disk, p, e)) && ChangedPathsMapped(PlanStep(disk, p, e))
  {
    if e.path !in disk {
      AppendConsistent(disk, p, Change(e.path, None, e.update));
    } else {
      CurrentContent(disk, p, e.path);
      var existing := Current(disk, p, e);
      var newContent := Apply(existing, e.head, e.update);
      if newContent != existing {
        AppendConsistent(disk, p, Change(e.path, Some(existing), newContent));
      } else {
        LoadConsistent(disk, p, e.path, existing, e);
      }
    }
  }

  /**
    Throughout the loop the map, changes_to_make and changes_made agree: each path holds the
    content its last change produced, later edits to an existing file start from the content the
    earlier ones produced, and changes_made is true exactly when changes_to_make is non-empty.
   */
  lemma {:induction false} PlanConsistent(disk: map<string, string>, edits: seq<E.Edit>)
    ensures Consistent(disk, PlanAll(disk, edits)) && ChangedPathsMapped(PlanAll(disk, edits))
    decreases |edits|
  {
    if edits != [] {
      PlanConsistent(disk, edits[..|edits| - 1]);
      StepConsistent(disk, PlanAll(disk, edits[..|edits| - 1]), edits[|edits| - 1]);
    }
  }

  /**
    Every edit lands in exactly one of changes_to_make and unmerged_blocks; unmerged edits are
    edits of the input to files that exist.
   */
  lemma {:induction false} PlanPartition(disk: map<string, string>, edits: seq<E.Edit>)
    ensures var p := PlanAll(disk, edits);
      && |p.changes| + |p.unmerged| == |edits|
      && (forall e :: e in p.unmerged ==> e in edits && e.path in disk)
    decreases |edits|
  {
    if edits != [] {
      var init := edits[..|edits| - 1];
      PlanPartition(disk, init);
      forall e | e in init ensures e in edits {
        var k :| 0 <= k < |init| && init[k] == e;
        assert edits[k] == e;
      }
    }
  }

  /** The map ends up with one key per path named by some edit, and no other. */
  lemma {:induction false} PlanKeys(disk: map<string, string>, edits: seq<E.Edit>)
    ensures PlanAll(disk, edits).contents.Keys == set e | e in edits :: e.path
    decreases |edits|
  {
    if edits != [] {
      var init, last := edits[..|edits| - 1], edits[|edits| - 1];
      PlanKeys(disk, init);
      StepKeys(disk, PlanAll(disk, init), last);
      assert edits == init + [last];
      PathsAppend(init, last);
    }
  }

  /** Each edit leaves its path mapped and adds no other key. */
  lemma StepKeys(disk: map<string, string>, p: Plan, e: E.Edit)
    ensures PlanStep(disk, p, e).contents.Keys == p.contents.Keys + {e.path}
  {
  }

  lemma PathsAppend(edits: seq<E.Edit>, e: E.Edit)
    ensures (set x | x in edits + [e] :: x.path) == (set x | x in edits :: x.path) + {e.path}
  {
  }

  /** The content an edit to an existing file starts from: the map's entry, else the file on disk. */
  function Current(disk: map<string, string>, p: Plan, e: E.Edit): string
  {
    if e.path in p.contents then p.contents[e.path] else if e.path in disk then disk[e.path] else ""
  }

  /**
    How one edit is decided. A missing file always becomes a change to the update. An edit to an
    existing file is unmerged exactly when its head is non-empty and either does not occur in the
    file's current content or equals the update; then only unmerged_blocks grows. Otherwise the
    change from the current content to the replaced or appended content is recorded and mapped.
    No other path's content moves.
   */
  lemma StepDecision(disk: map<string, string>, p: Plan, e: E.Edit)
    ensures var q := PlanStep(disk, p, e);
      && (forall path :: path in p.contents && path != e.path ==> path in q.contents && q.contents[path] == p.contents[path])
      && (e.path !in disk ==>
            && q.changes == p.changes + [Change(e.path, None, e.update)] && q.unmerged == p.unmerged
            && q.contents[e.path] == e.update && q.changesMade)
      && (e.path in disk ==>
            var cur := Current(disk, p, e);
            var unmerged := e.head != [] && (e.update == e.head || forall k :: !OccursAt(cur, e.head, k));
            && (!unmerged ==>
                  && q.unmerged == p.unmerged
                  && q.changes == p.changes + [Change(e.path, Some(cur), Apply(cur, e.head, e.update))]
                  && q.contents[e.path] == Apply(cur, e.head, e.update) && q.changesMade)
            && (unmerged ==>
                  && q.unmerged == p.unmerged + [e] && q.changes == p.changes
                  && q.contents[e.path] == cur && q.changesMade == p.changesMade))
  {
    if e.path in disk {
      ApplyChanges(Current(disk, p, e), e.head, e.update);
    }
  }
}
