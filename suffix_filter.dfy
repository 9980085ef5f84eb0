/**
  The file-selection settings of SuffixProject: the suffix list derived from project_type,
  is_suffix_file, the exclude patterns built by parse_exclude_files and should_exclude.
  Regular expressions are abstract: a pattern is the text it was compiled from, and matching is
  the parameter `search`. The language model that turns a description into a regex is the
  parameter `generate`; None stands for the falsy result that makes the source raise ValueError.
 */
module SuffixFilter {
  import opened Results
  import opened Strings

  /** Whether a project_type item is dropped: empty or whitespace only. */
  predicate Blank(item: string)
  {
    forall i :: 0 <= i < |item| ==> IsSpace(item[i])
  }

  /** Blank is the source's test `suffix.strip() == ""`. */
  lemma BlankIsStripEmpty(item: string)
    ensures Blank(item) <==> Trim(item) == ""
  {
  }

  /** An item with a leading '.' added when it lacks one. */
  function Dotted(item: string): (r: string)
    ensures StartsWith(r, ".")
    ensures StartsWith(item, ".") ==> r == item
    ensures !StartsWith(item, ".") ==> r == "." + item
  {
    if StartsWith(item, ".") then item else "." + item
  }

  /** The comprehension over project_type's comma-separated items, in order. */
  function NormalizeItems(items: seq<string>): (r: seq<string>)
    ensures |r| <= |items|
    ensures forall k :: 0 <= k < |r| ==> StartsWith(r[k], ".")
    decreases |items|
  {
    if items == [] then []
    else
      var rest := NormalizeItems(items[1..]);
      if Blank(items[0]) then rest else [Dotted(items[0])] + rest
  }

  /** self.suffixs: the suffixes a source file may end with. */
  function Suffixes(projectType: string): seq<string>
  {
    NormalizeItems(Split(projectType, ','))
  }

  /** The suffixes are exactly the non-blank items, dotted. */
  lemma {:induction false} NormalizeMembers(items: seq<string>)
    ensures forall x :: x in NormalizeItems(items) <==> exists item :: item in items && !Blank(item) && x == Dotted(item)
    decreases |items|
  {
    if items != [] {
      NormalizeMembers(items[1..]);
      forall x | (exists item :: item in items && !Blank(item) && x == Dotted(item))
        ensures x in NormalizeItems(items)
      {
        var item :| item in items && !Blank(item) && x == Dotted(item);
        if item != items[0] {
          assert item in items[1..];
        }
      }
      forall x | x in NormalizeItems(items)
        ensures exists item :: item in items && !Blank(item) && x == Dotted(item)
      {
        if x !in NormalizeItems(items[1..]) {
          assert items[0] in items;
        } else {
          var item :| item in items[1..] && !Blank(item) && x == Dotted(item);
          assert item in items;
        }
      }
    }
  }

  /** Normalisation works item by item: it keeps the order of the items. */
  lemma {:induction false} NormalizeAppend(a: seq<string>, b: seq<string>)
    ensures NormalizeItems(a + b) == NormalizeItems(a) + NormalizeItems(b)
    decreases |a|
  {
    if a != [] {
      assert (a + b)[0] == a[0] && (a + b)[1..] == a[1..] + b;
      NormalizeAppend(a[1..], b);
      var head := if Blank(a[0]) then [] else [Dotted(a[0])];
      assert NormalizeItems(a + b) == head + NormalizeItems(a[1..] + b);
      assert NormalizeItems(a) == head + NormalizeItems(a[1..]);
    } else {
      assert a + b == b;
    }
  }

  /** A blank item is dropped, any other item is kept with a leading '.'. */
  lemma NormalizeOne(item: string)
    ensures NormalizeItems([item]) == if Blank(item) then [] else [Dotted(item)]
  {
  }

  /** An item that already starts with '.' has a non-space first character, so it is never blank. */
  lemma DottedNotBlank(item: string)
    requires StartsWith(item, ".")
    ensures !Blank(item)
  {
    assert item[0] == '.';
  }

  /** Normalising an already normalised list changes nothing. */
  lemma {:induction false} NormalizeIdempotent(items: seq<string>)
    ensures NormalizeItems(NormalizeItems(items)) == NormalizeItems(items)
    decreases |items|
  {
    if items != [] {
      NormalizeIdempotent(items[1..]);
      var rest := NormalizeItems(items[1..]);
      if !Blank(items[0]) {
        var d := Dotted(items[0]);
        DottedNotBlank(d);
        NormalizeAppend([d], rest);
        assert [d] + rest == NormalizeItems(items);
      }
    }
  }

  /** A project_type written as a comma-separated list of normalised suffixes gives that list back. */
  lemma ProjectTypeRoundTrip(suffixes: seq<string>)
    requires |suffixes| >= 1
    requires forall k :: 0 <= k < |suffixes| ==> StartsWith(suffixes[k], ".") && ',' !in suffixes[k]
    ensures Suffixes(Join(suffixes, ',')) == suffixes
  {
    SplitJoin(suffixes, ',');
    KeepDotted(suffixes);
  }

  lemma {:induction false} KeepDotted(items: seq<string>)
    requires forall k :: 0 <= k < |items| ==> StartsWith(items[k], ".")
    ensures NormalizeItems(items) == items
    decreases |items|
  {
    if items != [] {
      KeepDotted(items[1..]);
      DottedNotBlank(items[0]);
    }
  }

  /** is_suffix_file: whether the path ends with one of the suffixes. */
  function IsSuffixFile(suffixes: seq<string>, path: string): (r: bool)
    ensures r <==> exists k :: 0 <= k < |suffixes| && EndsWith(path, suffixes[k])
    ensures suffixes == [] ==> !r
    decreases |suffixes|
  {
    if suffixes == [] then false
    else EndsWith(path, suffixes[0]) || IsSuffixFile(suffixes[1..], path)
  }

  /**
    With the suffixes of a project_type, a path is a source file exactly when it ends with
    some non-blank item of the project_type, dotted.
   */
  lemma SuffixFileOfProjectType(projectType: string, path: string)
    ensures IsSuffixFile(Suffixes(projectType), path)
        <==> exists item :: item in Split(projectType, ',') && !Blank(item) && EndsWith(path, Dotted(item))
  {
    var items := Split(projectType, ',');
    var suffixes := NormalizeItems(items);
    NormalizeMembers(items);
    if IsSuffixFile(suffixes, path) {
      var k :| 0 <= k < |suffixes| && EndsWith(path, suffixes[k]);
      assert suffixes[k] in suffixes;
    }
    if exists item :: item in items && !Blank(item) && EndsWith(path, Dotted(item)) {
      var item :| item in items && !Blank(item) && EndsWith(path, Dotted(item));
      assert Dotted(item) in suffixes;
    }
  }

  /** args.exclude_files: absent, a single string, or a list of strings. */
  datatype ExcludeFiles = Absent | Single(entry: string) | Several(entries: seq<string>)

  /** A compiled exclude pattern, known by the regular expression it was compiled from. */
  datatype Pattern = Pattern(regex: string)

  const RegexPrefix := "regex://"
  const HumanPrefix := "human://"
  const GenerateFailed := "Fail to generate regex pattern, try again."
  const InvalidFormat := "Invalid exclude_files format. Expected 'regex://<pattern>' or 'human://<description>' "

  /** The entries parse_exclude_files loops over: none for a falsy input, one for a single string. */
  function EntriesOf(x: ExcludeFiles): (r: seq<string>)
    ensures x.Absent? || x == Single("") || x == Several([]) <==> r == []
    ensures x.Single? && x.entry != "" ==> r == [x.entry]
    ensures x.Several? ==> r == x.entries
  {
    match x
    case Absent => []
    case Single(e) => if e == "" then [] else [e]
    case Several(es) => es
  }

  /** The pattern one entry yields, or the ValueError message it raises. */
  function PatternOf(entry: string, generate: string -> Option<string>): (r: Result<Pattern, string>)
    ensures StartsWith(entry, RegexPrefix) ==> r == Ok(Pattern(entry[8..]))
    ensures StartsWith(entry, HumanPrefix) ==>
              r == if generate(entry[8..]).None? then Err(GenerateFailed) else Ok(Pattern(generate(entry[8..]).value))
    ensures r.Err? <==> !StartsWith(entry, RegexPrefix) && (!StartsWith(entry, HumanPrefix) || generate(entry[8..]).None?)
    ensures r.Err? && !StartsWith(entry, HumanPrefix) ==> r.error == InvalidFormat
  {
    if StartsWith(entry, RegexPrefix) then Ok(Pattern(entry[|RegexPrefix|..]))
    else if StartsWith(entry, HumanPrefix) then
      match generate(entry[|HumanPrefix|..])
      case None => Err(GenerateFailed)
      case Some(regex) => Ok(Pattern(regex))
    else Err(InvalidFormat)
  }

  /**
    parse_exclude_files: one pattern per entry, in order, or the error of the first entry that
    has neither prefix or whose description the model could not turn into a regex.
   */
  method ParseExcludeFiles(excludeFiles: ExcludeFiles, generate: string -> Option<string>)
    returns (r: Result<seq<Pattern>, string>)
    ensures var entries := EntriesOf(excludeFiles);
      && (r.Ok? <==> forall k :: 0 <= k < |entries| ==> PatternOf(entries[k], generate).Ok?)
      && (r.Ok? ==> |r.value| == |entries| && forall k :: 0 <= k < |entries| ==> r.value[k] == PatternOf(entries[k], generate).value)
      && (r.Err? ==> exists j :: 0 <= j < |entries| && PatternOf(entries[j], generate) == Err(r.error)
                               && forall k :: 0 <= k < j ==> PatternOf(entries[k], generate).Ok?)
  {
    if excludeFiles.Absent? || excludeFiles == Single("") || excludeFiles == Several([]) {
      return Ok([]);
    }
    var entries := if excludeFiles.Single? then [excludeFiles.entry] else excludeFiles.entries;
    assert entries == EntriesOf(excludeFiles);
    var excludePatterns := [];
    for i := 0 to |entries|
      invariant |excludePatterns| == i
      invariant forall k :: 0 <= k < i ==> PatternOf(entries[k], generate).Ok? && excludePatterns[k] == PatternOf(entries[k], generate).value
    {
      var pattern := entries[i];
      if StartsWith(pattern, RegexPrefix) {
        pattern := pattern[8..];
        excludePatterns := excludePatterns + [Pattern(pattern)];
      } else if StartsWith(pattern, HumanPrefix) {
        pattern := pattern[8..];
        var v := generate(pattern);
        if v.None? {
          FirstError(entries, i, generate, GenerateFailed);
          return Err(GenerateFailed);
        }
        excludePatterns := excludePatterns + [Pattern(v.value)];
      } else {
        FirstError(entries, i, generate, InvalidFormat);
        return Err(InvalidFormat);
      }
    }
    return Ok(excludePatterns);
  }

  /** An entry that fails after entries that all succeeded is the first failure. */
  lemma FirstError(entries: seq<string>, i: nat, generate: string -> Option<string>, e: string)
    requires i < |entries| && PatternOf(entries[i], generate) == Err(e)
    requires forall k :: 0 <= k < i ==> PatternOf(entries[k], generate).Ok?
    ensures !(forall k :: 0 <= k < |entries| ==> PatternOf(entries[k], generate).Ok?)
    ensures exists j :: 0 <= j < |entries| && PatternOf(entries[j], generate) == Err(e)
                       && forall k :: 0 <= k < j ==> PatternOf(entries[k], generate).Ok?
  {
  }

  /** should_exclude: whether some pattern matches the path, trying the patterns in order. */
  function ShouldExclude(patterns: seq<Pattern>, path: string, search: (Pattern, string) -> bool): (r: bool)
    ensures r <==> exists k :: 0 <= k < |patterns| && search(patterns[k], path)
    ensures patterns == [] ==> !r
    decreases |patterns|
  {
    if patterns == [] then false
    else if search(patterns[0], path) then true
    else ShouldExclude(patterns[1..], path, search)
  }

  /** Excluding by a concatenation of pattern lists is excluding by either list. */
  lemma ShouldExcludeAppend(a: seq<Pattern>, b: seq<Pattern>, path: string, search: (Pattern, string) -> bool)
    ensures ShouldExclude(a + b, path, search) <==> ShouldExclude(a, path, search) || ShouldExclude(b, path, search)
  {
    var ab := a + b;
    if ShouldExclude(ab, path, search) {
      var k :| 0 <= k < |ab| && search(ab[k], path);
      if k >= |a| {
        assert b[k - |a|] == ab[k];
      } else {
        assert a[k] == ab[k];
      }
    }
    if ShouldExclude(a, path, search) {
      var k :| 0 <= k < |a| && search(a[k], path);
      assert ab[k] == a[k];
    }
    if ShouldExclude(b, path, search) {
      var k :| 0 <= k < |b| && search(b[k], path);
      assert ab[|a| + k] == b[k];
      assert 0 <= |a| + k < |ab| && search(ab[|a| + k], path);
    }
  }
}
