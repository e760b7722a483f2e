/**
 The file-selection passes of the photo-export cleanup. For the names in one
 directory, `clean_folder` runs three passes in a fixed order: it drops the
 `.json` sidecar files, then numbered copies such as `img(1).jpg` whose
 unnumbered name is present, then the files whose hyphen tag (`-SNOW.`,
 `-edited.`, ...) is unwanted, asking the user about tags it does not know.
 Each pass yields the names it keeps and the list of names it removed.
 */
module PhotosClean {
  import opened Sequences
  import opened NamePatterns

  /** A Python list of file names. The duplicate and hyphen passes receive one,
      shrink it in place with `list.remove`, and hand the same list back. */
  class NameList {
    var items: seq<string>

    constructor (items: seq<string>)
      ensures this.items == items
    {
      this.items := items;
    }

    /** `list.remove(name)`; Python raises `ValueError` when `name` is absent. */
    method Remove(name: string)
      requires name in items
      modifies this
      ensures items == RemoveFirst(old(items), name)
      ensures multiset(items) == multiset(old(items)) - multiset{name}
    {
      items := RemoveFirst(items, name);
    }
  }

  // ---------------------------------------------------------------------------
  // Pass 1: sidecar files
  // ---------------------------------------------------------------------------

  /** `[f for f in files if not f.endswith('.json')]`. */
  function NonJsonNames(files: seq<string>): seq<string>
  {
    if files == [] then []
    else
      var init, last := files[..|files| - 1], files[|files| - 1];
      NonJsonNames(init) + (if IsJsonName(last) then [] else [last])
  }

  /** `[f for f in files if f not in kept]`. */
  function NamesNotIn(files: seq<string>, kept: seq<string>): seq<string>
  {
    if files == [] then []
    else
      var init, last := files[..|files| - 1], files[|files| - 1];
      NamesNotIn(init, kept) + (if last in kept then [] else [last])
  }

  /** The comprehension keeps every name not ending in `.json`, as often as it occurs. */
  lemma {:induction false} NonJsonNamesCount(files: seq<string>)
    ensures forall f :: multiset(NonJsonNames(files))[f] == if IsJsonName(f) then 0 else multiset(files)[f]
  {
    if files != [] {
      var init, last := files[..|files| - 1], files[|files| - 1];
      assert files == init + [last];
      NonJsonNamesCount(init);
    }
  }

  /** The comprehension keeps every name not in `kept`, as often as it occurs. */
  lemma {:induction false} NamesNotInCount(files: seq<string>, kept: seq<string>)
    ensures forall f :: multiset(NamesNotIn(files, kept))[f] == if f in kept then 0 else multiset(files)[f]
  {
    if files != [] {
      var init, last := files[..|files| - 1], files[|files| - 1];
      assert files == init + [last];
      NamesNotInCount(init, kept);
    }
  }

  /** `remove_json_files`: the names kept are those not ending in `.json`; the
      names removed are those of the input not among the kept ones. Every name
      lands on exactly one side, as often as it occurs in the input. */
  function RemoveJsonFiles(files: seq<string>): (r: (seq<string>, seq<string>))
    ensures forall f :: f in r.0 <==> f in files && !IsJsonName(f)
    ensures forall f :: f in r.1 <==> f in files && IsJsonName(f)
    ensures forall f :: multiset(r.0)[f] == if IsJsonName(f) then 0 else multiset(files)[f]
    ensures forall f :: multiset(r.1)[f] == if IsJsonName(f) then multiset(files)[f] else 0
    ensures multiset(r.0) + multiset(r.1) == multiset(files)
  {
    var kept := NonJsonNames(files);
    var removed := NamesNotIn(files, kept);
    NonJsonNamesCount(files);
    NamesNotInCount(files, kept);
    assert forall f :: f in kept <==> multiset(kept)[f] > 0;
    assert forall f :: f in files <==> multiset(files)[f] > 0;
    assert multiset(kept) + multiset(removed) == multiset(files) by {
      forall f ensures (multiset(kept) + multiset(removed))[f] == multiset(files)[f] { }
    }
    (kept, removed)
  }

  // ---------------------------------------------------------------------------
  // Pass 2: numbered duplicates
  // ---------------------------------------------------------------------------

  /** Each removed name's unnumbered form was still in the list when that name
      was removed: it occurs in `original` more often than among the names
      removed before it. */
  ghost predicate BaseWasPresent(original: seq<string>, removed: seq<string>)
  {
    forall k :: 0 <= k < |removed| ==>
      multiset(removed[..k])[StripNumbers(removed[k])] < multiset(original)[StripNumbers(removed[k])]
  }

  lemma BaseWasPresentSnoc(original: seq<string>, removed: seq<string>, name: string)
    requires BaseWasPresent(original, removed)
    requires multiset(removed)[StripNumbers(name)] < multiset(original)[StripNumbers(name)]
    ensures BaseWasPresent(original, removed + [name])
  {
    var removed' := removed + [name];
    assert removed'[..|removed|] == removed;
    forall k | 0 <= k < |removed|
      ensures removed'[..k] == removed[..k] && removed'[k] == removed[k] { }
  }

  /** Every removed name's unnumbered form is a name of `original`. */
  lemma BaseWasPresentIn(original: seq<string>, removed: seq<string>)
    requires BaseWasPresent(original, removed)
    ensures forall f :: f in removed ==> StripNumbers(f) in original
  {
    forall f | f in removed ensures StripNumbers(f) in original {
      var k := IndexOf(removed, f);
      assert multiset(original)[StripNumbers(f)] > 0;
    }
  }

  /** None of the names in `skipped` has its unnumbered form in `items`. */
  ghost predicate BasesAbsent(skipped: set<string>, items: seq<string>)
  {
    forall f :: f in skipped ==> StripNumbers(f) !in items
  }

  lemma BasesAbsentRemove(skipped: set<string>, items: seq<string>, name: string)
    requires BasesAbsent(skipped, items) && name in items
    ensures BasesAbsent(skipped, RemoveFirst(items, name))
  {
    var items' := RemoveFirst(items, name);
    forall f | f in skipped ensures StripNumbers(f) !in items' {
      var b := StripNumbers(f);
      assert multiset(items)[b] == 0;
      assert multiset(items')[b] <= multiset(items)[b];
    }
  }

  /** What holds after some of the numbered names have been visited: `pending`
      are those still to visit, `removed` those removed (in order) and `skipped`
      those whose unnumbered form was missing when visited; `items` is the list
      left after the removals. */
  ghost predicate DuplicateLoopInv(original: seq<string>, numbered: set<string>, pending: set<string>,
                                   removed: seq<string>, skipped: set<string>)
  {
    && pending <= numbered
    && multiset(removed) <= multiset(original)
    && Distinct(removed)
    && (forall f :: f in removed ==> f in numbered && f !in pending)
    && BaseWasPresent(original, removed)
    && skipped !! pending
    && (forall f :: f in numbered ==> f in pending || f in removed || f in skipped)
    && BasesAbsent(skipped, RemoveEach(original, removed))
  }

  lemma DuplicateLoopStart(original: seq<string>, numbered: set<string>)
    ensures DuplicateLoopInv(original, numbered, numbered, [], {})
  {
  }

  /** Visiting a name whose unnumbered form is in the list removes it, and
      `list.remove` finds it there. */
  lemma DuplicateLoopRemove(original: seq<string>, numbered: set<string>, pending: set<string>,
                            removed: seq<string>, skipped: set<string>, name: string)
    requires DuplicateLoopInv(original, numbered, pending, removed, skipped)
    requires name in pending
    requires forall f :: f in numbered ==> f in original
    requires StripNumbers(name) in RemoveEach(original, removed)
    ensures name in RemoveEach(original, removed)
    ensures RemoveEach(original, removed + [name]) == RemoveFirst(RemoveEach(original, removed), name)
    ensures DuplicateLoopInv(original, numbered, pending - {name}, removed + [name], skipped)
  {
    RemoveEachLeaves(original, removed, StripNumbers(name));
    RemoveEachFresh(original, removed, name);
    BaseWasPresentSnoc(original, removed, name);
    BasesAbsentRemove(skipped, RemoveEach(original, removed), name);
  }

  /** Visiting a name whose unnumbered form is missing leaves the list alone. */
  lemma DuplicateLoopSkip(original: seq<string>, numbered: set<string>, pending: set<string>,
                          removed: seq<string>, skipped: set<string>, name: string)
    requires DuplicateLoopInv(original, numbered, pending, removed, skipped)
    requires name in pending
    requires StripNumbers(name) !in RemoveEach(original, removed)
    ensures DuplicateLoopInv(original, numbered, pending - {name}, removed, skipped + {name})
  {
  }

  /** Once every numbered name is visited, each one not removed has no
      unnumbered form left in the list. */
  lemma DuplicateLoopEnd(original: seq<string>, numbered: set<string>, removed: seq<string>, skipped: set<string>)
    requires DuplicateLoopInv(original, numbered, {}, removed, skipped)
    requires forall f :: f in numbered <==> f in original && HasNumber(f)
    ensures forall f :: f in removed ==> HasNumber(f)
    ensures forall f :: f in original && HasNumber(f) && f !in removed ==> StripNumbers(f) !in RemoveEach(original, removed)
  {
  }

  /** `remove_duplicate_files`. The names containing a `(digits)` marker are
      visited once each, in the arbitrary order of a Python set. A visited name
      is removed from the list when the name with every marker deleted is in the
      list at that moment. */
  method RemoveDuplicateFiles(files: NameList) returns (keep: NameList, removed: seq<string>)
    modifies files
    ensures keep == files
    ensures multiset(removed) <= multiset(old(files.items))
    ensures files.items == RemoveEach(old(files.items), removed)
    ensures Distinct(removed)
    ensures forall f :: f in removed ==> HasNumber(f)
    ensures BaseWasPresent(old(files.items), removed)
    ensures forall f :: f in old(files.items) && HasNumber(f) && f !in removed ==> StripNumbers(f) !in files.items
  {
    keep := files;
    removed := [];
    ghost var original := files.items;
    ghost var skipped: set<string> := {};
    var numbered := set f | f in files.items && HasNumber(f);
    var pending := numbered;
    DuplicateLoopStart(original, numbered);
    while pending != {}
      invariant files.items == RemoveEach(original, removed)
      invariant DuplicateLoopInv(original, numbered, pending, removed, skipped)
      decreases pending
    {
      var numberedFile :| numberedFile in pending;
      var unnumberedFile := StripNumbers(numberedFile);
      if unnumberedFile in files.items {
        DuplicateLoopRemove(original, numbered, pending, removed, skipped, numberedFile);
        removed := removed + [numberedFile];
        files.Remove(numberedFile);
      } else {
        DuplicateLoopSkip(original, numbered, pending, removed, skipped, numberedFile);
        skipped := skipped + {numberedFile};
      }
      pending := pending - {numberedFile};
    }
    DuplicateLoopEnd(original, numbered, removed, skipped);
  }

  /** What the postcondition of `RemoveDuplicateFiles` forces on
      `[img.jpg, img(1).jpg]`: the numbered copy is removed, whatever the visiting order. */
  lemma DuplicateExampleRemoved(removed: seq<string>)
    requires multiset(removed) <= multiset(["img.jpg", "img(1).jpg"])
    requires forall f :: f in removed ==> HasNumber(f)
    requires forall f :: f in ["img.jpg", "img(1).jpg"] && HasNumber(f) && f !in removed ==>
                         StripNumbers(f) !in RemoveEach(["img.jpg", "img(1).jpg"], removed)
    ensures removed == ["img(1).jpg"]
  {
    var original := ["img.jpg", "img(1).jpg"];
    StripNumbersExample();
    assert multiset(removed)["img.jpg"] == 0;
    RemoveEachLeaves(original, removed, "img.jpg");
    assert "img.jpg" in RemoveEach(original, removed);
    assert "img(1).jpg" in original;
    assert multiset(removed) <= multiset{"img(1).jpg"} by {
      forall x ensures multiset(removed)[x] <= multiset{"img(1).jpg"}[x] {
        assert multiset(removed)[x] <= multiset(original)[x];
      }
    }
    SingleCopy(removed, "img(1).jpg");
  }

  /** What the postcondition of `RemoveDuplicateFiles` forces on `[img(1).jpg]`
      alone: nothing is removed, as the unnumbered name is missing. */
  lemma DuplicateExampleKept(removed: seq<string>)
    requires multiset(removed) <= multiset(["img(1).jpg"])
    requires BaseWasPresent(["img(1).jpg"], removed)
    ensures removed == []
  {
    StripNumbersExample();
    assert multiset(["img(1).jpg"])["img.jpg"] == 0;
  }

  /** The two cases of the docstring, run through `RemoveDuplicateFiles`:
      `[img.jpg, img(1).jpg]` loses `img(1).jpg`, and `[img(1).jpg]` alone is
      left as it is. */
  method DuplicateExamples()
    returns (keptWithBase: seq<string>, removedWithBase: seq<string>, keptAlone: seq<string>, removedAlone: seq<string>)
    ensures keptWithBase == ["img.jpg"] && removedWithBase == ["img(1).jpg"]
    ensures keptAlone == ["img(1).jpg"] && removedAlone == []
  {
    var withBase := new NameList(["img.jpg", "img(1).jpg"]);
    var kept;
    kept, removedWithBase := RemoveDuplicateFiles(withBase);
    DuplicateExampleRemoved(removedWithBase);
    assert RemoveFirst(["img.jpg", "img(1).jpg"], "img(1).jpg") == ["img.jpg"] by {
      assert IndexOf(["img.jpg", "img(1).jpg"], "img(1).jpg") == 1;
    }
    keptWithBase := withBase.items;
    var alone := new NameList(["img(1).jpg"]);
    kept, removedAlone := RemoveDuplicateFiles(alone);
    DuplicateExampleKept(removedAlone);
    keptAlone := alone.items;
  }

  // ---------------------------------------------------------------------------
  // Pass 3: hyphen tags
  // ---------------------------------------------------------------------------

  /** Tags whose files are always kept (`hyphenations_to_keep`). */
  const KeepTags: seq<string> := ["MOVIE", "PANO"]

  /** Tags whose files are always removed (`hyphenations_to_remove`). */
  const RemoveTags: seq<string> := ["TWINKLE", "SNOW", "edited", "PANO-edited"]

  datatype Verdict = KeepGroup | RemoveGroup | AskUser

  /** What the pass does with the files of a tag, before any answer is known. */
  function Policy(tag: string): Verdict
  {
    if tag in KeepTags then KeepGroup
    else if tag in RemoveTags then RemoveGroup
    else AskUser
  }

  predicate IsAsked(tag: string)
  {
    Policy(tag) == AskUser
  }

  /** Whether the files of `tag` are removed, `ask` giving the user's answer to
      the prompt for a tag. */
  predicate RemovesGroup(tag: string, ask: string -> string)
  {
    match Policy(tag)
    case KeepGroup => false
    case RemoveGroup => true
    case AskUser => !IsYes(ask(tag))
  }

  /** No tag is on both lists, so the order of the two list tests does not
      matter. A tag's files go exactly when the tag is not on the keep list,
      and it is on the remove list or the answer is neither `y` nor `Y`. */
  lemma RemovesGroupIff(tag: string, ask: string -> string)
    ensures !(tag in KeepTags && tag in RemoveTags)
    ensures RemovesGroup(tag, ask) <==> tag !in KeepTags && (tag in RemoveTags || (ask(tag) != "y" && ask(tag) != "Y"))
  {
    IsYesIff(ask(tag));
  }

  /** A name the hyphen pass removes: it has a tag, and that tag's files go. */
  predicate TagRemoved(name: string, ask: string -> string)
  {
    HyphenTag(name).Some? && RemovesGroup(HyphenTag(name).value, ask)
  }

  /** The names with tag `tag`, in list order: one entry of the `defaultdict`. */
  function Group(files: seq<string>, tag: string): seq<string>
  {
    if files == [] then []
    else
      var init, last := files[..|files| - 1], files[|files| - 1];
      Group(init, tag) + (if HyphenTag(last) == Some(tag) then [last] else [])
  }

  lemma GroupSnoc(files: seq<string>, name: string, tag: string)
    ensures Group(files + [name], tag) == Group(files, tag) + (if HyphenTag(name) == Some(tag) then [name] else [])
  {
    assert (files + [name])[..|files|] == files;
  }

  /** A group holds every name with its tag, as often as the list does, and no other name. */
  lemma {:induction false} GroupCount(files: seq<string>, tag: string)
    ensures forall x :: multiset(Group(files, tag))[x] == if HyphenTag(x) == Some(tag) then multiset(files)[x] else 0
  {
    if files != [] {
      var init, last := files[..|files| - 1], files[|files| - 1];
      assert files == init + [last];
      GroupCount(init, tag);
    }
  }

  /** The keys after one more name: its tag, when it has one not seen before,
      is added at the end. */
  function AddTag(tags: seq<string>, name: string): (r: seq<string>)
    ensures Distinct(tags) ==> Distinct(r)
  {
    match HyphenTag(name)
    case Some(t) =>
      if t in tags then tags
      else
        assert multiset(tags + [t]) == multiset(tags) + multiset{t};
        tags + [t]
    case None => tags
  }

  /** The keys of the `defaultdict`: the tags of `files`, each once, in the order
      of their first name. */
  function TagOrder(files: seq<string>): (tags: seq<string>)
    ensures Distinct(tags)
  {
    if files == [] then []
    else AddTag(TagOrder(files[..|files| - 1]), files[|files| - 1])
  }

  /** The keys are exactly the tags that occur: every tagged name's tag is one,
      and each one is the tag of some name. */
  lemma {:induction false} TagOrderHasTags(files: seq<string>)
    ensures forall f :: f in files && HyphenTag(f).Some? ==> HyphenTag(f).value in TagOrder(files)
    ensures forall t :: t in TagOrder(files) ==> exists f :: f in files && HyphenTag(f) == Some(t)
  {
    if files != [] {
      var init, last := files[..|files| - 1], files[|files| - 1];
      assert files == init + [last];
      TagOrderHasTags(init);
    }
  }

  /** The tags the pass prompts for, in the order of `tags`. */
  function AskedTags(tags: seq<string>): seq<string>
  {
    if tags == [] then []
    else
      var init, last := tags[..|tags| - 1], tags[|tags| - 1];
      AskedTags(init) + (if IsAsked(last) then [last] else [])
  }

  lemma AskedTagsSnoc(tags: seq<string>, k: nat)
    requires k < |tags|
    ensures AskedTags(tags[..k + 1]) == AskedTags(tags[..k]) + (if IsAsked(tags[k]) then [tags[k]] else [])
  {
    PrefixSnoc(tags, k);
  }

  /** A tag is prompted for as often as it occurs in `tags` when it is on
      neither list, and never otherwise. */
  lemma {:induction false} AskedTagsCount(tags: seq<string>)
    ensures forall t :: multiset(AskedTags(tags))[t] == if IsAsked(t) then multiset(tags)[t] else 0
  {
    if tags != [] {
      var init, last := tags[..|tags| - 1], tags[|tags| - 1];
      assert tags == init + [last];
      AskedTagsCount(init);
    }
  }

  /** A tag that is not yet a key has no names. */
  lemma {:induction false} GroupOfAbsentTag(files: seq<string>, tag: string)
    requires tag !in TagOrder(files)
    ensures Group(files, tag) == []
  {
    if files != [] {
      var init, last := files[..|files| - 1], files[|files| - 1];
      assert files == init + [last];
      GroupOfAbsentTag(init, tag);
    }
  }

  /** `hyphenated_files[tag].append(name)` for the tag of `name`, a missing entry
      starting out empty; a name without a tag leaves the dictionary alone. */
  function AddToGroups(groups: map<string, seq<string>>, name: string): map<string, seq<string>>
  {
    match HyphenTag(name)
    case None => groups
    case Some(t) => groups[t := (if t in groups then groups[t] else []) + [name]]
  }

  /** The `defaultdict(list)` after appending every tagged name of `files` to
      the entry of its tag. */
  function Groups(files: seq<string>): map<string, seq<string>>
  {
    if files == [] then map[]
    else AddToGroups(Groups(files[..|files| - 1]), files[|files| - 1])
  }

  /** The keys of the `defaultdict` are the tags in `TagOrder`. */
  lemma {:induction false} GroupsKeys(files: seq<string>)
    ensures forall t :: t in Groups(files) <==> t in TagOrder(files)
  {
    if files != [] {
      var init := files[..|files| - 1];
      GroupsKeys(init);
    }
  }

  /** Each entry of the `defaultdict` is the group of its tag: the names with
      that tag, in list order. */
  lemma {:induction false} GroupsAgree(files: seq<string>)
    ensures forall t :: t in Groups(files) <==> t in TagOrder(files)
    ensures forall t :: t in Groups(files) ==> Groups(files)[t] == Group(files, t)
  {
    GroupsKeys(files);
    if files != [] {
      var init, last := files[..|files| - 1], files[|files| - 1];
      assert files == init + [last];
      GroupsAgree(init);
      forall t | t in Groups(files) ensures Groups(files)[t] == Group(files, t) {
        GroupSnoc(init, last, t);
        if t !in Groups(init) {
          GroupOfAbsentTag(init, t);
        }
      }
    }
  }

  /** The names the loop over `tags` removes: the groups of removed tags,
      concatenated in tag order. */
  function RemovedGroups(files: seq<string>, tags: seq<string>, ask: string -> string): seq<string>
  {
    if tags == [] then []
    else
      var init, tag := tags[..|tags| - 1], tags[|tags| - 1];
      RemovedGroups(files, init, ask) + (if RemovesGroup(tag, ask) then Group(files, tag) else [])
  }

  /** Handling one more tag appends its group when that tag's files go. */
  lemma RemovedGroupsSnoc(files: seq<string>, tags: seq<string>, k: nat, ask: string -> string)
    requires k < |tags|
    ensures RemovedGroups(files, tags[..k + 1], ask) ==
            RemovedGroups(files, tags[..k], ask) + (if RemovesGroup(tags[k], ask) then Group(files, tags[k]) else [])
  {
    PrefixSnoc(tags, k);
  }

  /** Over distinct tags, a name is removed as often as it occurs in `files` when
      its tag is among them and removed, and never otherwise. */
  lemma {:induction false} RemovedGroupsCount(files: seq<string>, tags: seq<string>, ask: string -> string)
    requires Distinct(tags)
    ensures forall x :: multiset(RemovedGroups(files, tags, ask))[x] ==
                        (if HyphenTag(x).Some? && HyphenTag(x).value in tags && RemovesGroup(HyphenTag(x).value, ask)
                         then multiset(files)[x] else 0)
  {
    if tags != [] {
      var n := |tags| - 1;
      var init, tag := tags[..n], tags[n];
      assert tags == init + [tag];
      DistinctNotBefore(tags, n);
      RemovedGroupsCount(files, init, ask);
      GroupCount(files, tag);
      forall x ensures HyphenTag(x).Some? && HyphenTag(x).value in tags <==>
        HyphenTag(x).Some? && (HyphenTag(x).value in init || HyphenTag(x).value == tag) { }
    }
  }

  /** While the pass works through the group of `tags[k]`, what it has removed
      so far never exceeds the input. */
  lemma RemovedSoFarBounded(files: seq<string>, tags: seq<string>, ask: string -> string, k: nat, done: seq<string>)
    requires Distinct(tags) && k < |tags|
    requires multiset(done) <= multiset(Group(files, tags[k]))
    ensures multiset(RemovedGroups(files, tags[..k], ask) + done) <= multiset(files)
  {
    DistinctNotBefore(tags, k);
    RemovedGroupsCount(files, tags[..k], ask);
    GroupCount(files, tags[k]);
    forall x ensures multiset(RemovedGroups(files, tags[..k], ask) + done)[x] <= multiset(files)[x] {
      assert multiset(done)[x] <= multiset(Group(files, tags[k]))[x];
    }
  }

  /** Calls `list.remove` for each of `names` in turn, as both removal loops of
      the hyphen pass do with a tag's group. */
  method RemoveAll(files: NameList, names: seq<string>)
    requires multiset(names) <= multiset(files.items)
    modifies files
    ensures files.items == RemoveEach(old(files.items), names)
  {
    ghost var original := files.items;
    var m := 0;
    while m < |names|
      invariant 0 <= m <= |names|
      invariant multiset(names[..m]) <= multiset(original)
      invariant files.items == RemoveEach(original, names[..m])
    {
      PrefixSnoc(names, m);
      RemoveEachSnoc(original, names[..m], names[m]);
      files.Remove(names[m]);
      m := m + 1;
    }
    assert names[..m] == names;
  }

  /** What the first loop of the hyphen pass holds after the first `i` names:
      the keys so far, in insertion order, and the dictionary so far. */
  ghost predicate GroupedPrefix(items: seq<string>, i: nat, tags: seq<string>, groups: map<string, seq<string>>)
  {
    && i <= |items|
    && tags == TagOrder(items[..i])
    && groups == Groups(items[..i])
    && (forall t :: t in groups <==> t in tags)
  }

  /** One more name: the keys and the dictionary take one step each. */
  lemma GroupStep(items: seq<string>, i: nat, tags: seq<string>, groups: map<string, seq<string>>)
    requires GroupedPrefix(items, i, tags, groups) && i < |items|
    ensures GroupedPrefix(items, i + 1, AddTag(tags, items[i]), AddToGroups(groups, items[i]))
  {
    PrefixSnoc(items, i);
  }

  /** The first loop of the hyphen pass: the `defaultdict` from each tag to its
      names, with its keys in insertion order. */
  method GroupByTag(items: seq<string>) returns (tags: seq<string>, groups: map<string, seq<string>>)
    ensures tags == TagOrder(items)
    ensures groups == Groups(items)
  {
    tags := [];
    groups := map[];
    var i := 0;
    while i < |items|
      invariant GroupedPrefix(items, i, tags, groups)
    {
      var name := items[i];
      GroupStep(items, i, tags, groups);
      var tag := HyphenTag(name);
      if tag.Some? {
        var t := tag.value;
        var current := if t in groups then groups[t] else [];
        if t !in groups {
          tags := tags + [t];
        }
        groups := groups[t := current + [name]];
      }
      i := i + 1;
    }
    assert items[..i] == items;
  }

  /** Before handling `tags[k]`, its group still fits in what is left of the list. */
  lemma TagStepFits(original: seq<string>, tags: seq<string>, k: nat, ask: string -> string)
    requires Distinct(tags) && k < |tags|
    ensures multiset(RemovedGroups(original, tags[..k], ask) + Group(original, tags[k])) <= multiset(original)
    ensures multiset(RemovedGroups(original, tags[..k], ask)) <= multiset(original)
    ensures multiset(Group(original, tags[k])) <= multiset(RemoveEach(original, RemovedGroups(original, tags[..k], ask)))
  {
    var removed, group := RemovedGroups(original, tags[..k], ask), Group(original, tags[k]);
    RemovedSoFarBounded(original, tags, ask, k, group);
    RemoveEachAppend(original, removed, group);
  }

  /** After handling `tags[k]`, the names removed so far are those of the
      removed groups among `tags[..k + 1]`, and the list is what is left once
      they are removed from the original. */
  lemma TagStepExtends(original: seq<string>, tags: seq<string>, k: nat, ask: string -> string, removedGroup: seq<string>)
    requires Distinct(tags) && k < |tags|
    requires removedGroup == if RemovesGroup(tags[k], ask) then Group(original, tags[k]) else []
    ensures RemovedGroups(original, tags[..k], ask) + removedGroup == RemovedGroups(original, tags[..k + 1], ask)
    ensures RemoveEach(RemoveEach(original, RemovedGroups(original, tags[..k], ask)), removedGroup) ==
            RemoveEach(original, RemovedGroups(original, tags[..k + 1], ask))
  {
    var removed := RemovedGroups(original, tags[..k], ask);
    RemovedGroupsSnoc(original, tags, k, ask);
    RemovedSoFarBounded(original, tags, ask, k, removedGroup);
    RemoveEachAppend(original, removed, removedGroup);
  }

  /** The handling of one key of the `defaultdict`: its names stay when the tag
      is on the keep list, go when it is on the remove list, and otherwise the
      user is asked and they stay only on an answer that lower-cases to "y".
      `asked` tells whether the prompt was shown. */
  method HandleTag(files: NameList, tag: string, group: seq<string>, ask: string -> string)
    returns (removedGroup: seq<string>, asked: bool)
    requires multiset(group) <= multiset(files.items)
    modifies files
    ensures asked == IsAsked(tag)
    ensures removedGroup == if RemovesGroup(tag, ask) then group else []
    ensures files.items == RemoveEach(old(files.items), removedGroup)
  {
    removedGroup := [];
    asked := false;
    if tag in KeepTags {
      return;
    } else if tag in RemoveTags {
      RemoveAll(files, group);
      removedGroup := group;
    } else {
      var response := ask(tag);
      asked := true;
      if IsYes(response) {
        return;
      }
      RemoveAll(files, group);
      removedGroup := group;
    }
  }

  /** The second loop of the hyphen pass: the keys of the `defaultdict` in
      insertion order, each handled by `HandleTag`. */
  method RemoveTagGroups(files: NameList, tags: seq<string>, groups: map<string, seq<string>>, ask: string -> string)
    returns (removed: seq<string>, prompted: seq<string>)
    requires Distinct(tags)
    requires forall t :: t in tags ==> t in groups && groups[t] == Group(files.items, t)
    modifies files
    ensures removed == RemovedGroups(old(files.items), tags, ask)
    ensures prompted == AskedTags(tags)
    ensures files.items == RemoveEach(old(files.items), removed)
  {
    removed := [];
    prompted := [];
    ghost var original := files.items;
    var k := 0;
    while k < |tags|
      invariant 0 <= k <= |tags|
      invariant removed == RemovedGroups(original, tags[..k], ask)
      invariant files.items == RemoveEach(original, removed)
      invariant prompted == AskedTags(tags[..k])
    {
      var tag := tags[k];
      TagStepFits(original, tags, k, ask);
      var removedGroup, asked := HandleTag(files, tag, groups[tag], ask);
      TagStepExtends(original, tags, k, ask, removedGroup);
      AskedTagsSnoc(tags, k);
      removed := removed + removedGroup;
      if asked {
        prompted := prompted + [tag];
      }
      k := k + 1;
    }
    assert tags[..k] == tags;
  }

  /** `remove_unwanted_hyphenated_files`. Names are grouped by hyphen tag; then,
      tag by tag in order of first appearance, a group is kept when its tag is on
      the keep list, removed when it is on the remove list, and otherwise the user
      is prompted once and the group is kept only on a "y" answer. The list is
      changed in place and also returned. */
  method RemoveUnwantedHyphenatedFiles(files: NameList, ask: string -> string)
    returns (keep: NameList, removed: seq<string>, prompted: seq<string>)
    modifies files
    ensures keep == files
    ensures removed == RemovedGroups(old(files.items), TagOrder(old(files.items)), ask)
    ensures prompted == AskedTags(TagOrder(old(files.items)))
    ensures files.items == RemoveEach(old(files.items), removed)
  {
    keep := files;
    var tags, groups := GroupByTag(files.items);
    GroupsAgree(files.items);
    removed, prompted := RemoveTagGroups(files, tags, groups, ask);
  }

  /** What the hyphen pass removes, name by name: every occurrence of a name
      whose tag's files go, and nothing else; the rest of the list stays. */
  lemma HyphenPassCounts(files: seq<string>, ask: string -> string)
    ensures multiset(RemovedGroups(files, TagOrder(files), ask)) <= multiset(files)
    ensures forall f :: multiset(RemovedGroups(files, TagOrder(files), ask))[f] ==
                        if TagRemoved(f, ask) then multiset(files)[f] else 0
    ensures forall f :: multiset(RemoveEach(files, RemovedGroups(files, TagOrder(files), ask)))[f] ==
                        if TagRemoved(f, ask) then 0 else multiset(files)[f]
  {
    var tags := TagOrder(files);
    TagOrderHasTags(files);
    RemovedGroupsCount(files, tags, ask);
    forall f ensures multiset(RemovedGroups(files, tags, ask))[f] <= multiset(files)[f] { }
    RemoveEachCount(files, RemovedGroups(files, tags, ask));
  }

  // ---------------------------------------------------------------------------
  // The pipeline
  // ---------------------------------------------------------------------------

  /** The names of a Python `set`, in the arbitrary order iterating it yields. */
  method SetToList(s: set<string>) returns (l: seq<string>)
    ensures Distinct(l)
    ensures forall x :: x in l <==> x in s
  {
    l := [];
    var rest := s;
    while rest != {}
      invariant rest <= s
      invariant Distinct(l)
      invariant forall x :: x in l <==> x in s && x !in rest
      decreases rest
    {
      var x :| x in rest;
      assert multiset(l + [x]) == multiset(l) + multiset{x};
      l := l + [x];
      rest := rest - {x};
    }
  }

  /** A list of a set's names holds each name of the set exactly once. */
  lemma SetListCounts(fileNames: seq<string>, names: seq<string>)
    requires Distinct(names) && forall x :: x in names <==> x in fileNames
    ensures forall f :: multiset(names)[f] == if f in fileNames then 1 else 0
  {
    forall f ensures multiset(names)[f] == if f in fileNames then 1 else 0 {
      assert f in names <==> multiset(names)[f] > 0;
    }
  }

  /** The three passes chained, on values: `names` are the directory's names,
      each once; the JSON pass splits them into `kept` and `json`, the
      duplicate pass removes `dupRemoved` from `kept` leaving `mid`, and the
      hyphen pass removes `hyphenRemoved` from `mid` leaving `keep`. Every name
      then lands exactly once on one side. */
  lemma PipelineCounts(fileNames: seq<string>, names: seq<string>, ask: string -> string,
                       kept: seq<string>, json: seq<string>, dupRemoved: seq<string>, mid: seq<string>,
                       hyphenRemoved: seq<string>, keep: seq<string>)
    requires forall f :: multiset(names)[f] == if f in fileNames then 1 else 0
    requires multiset(kept) + multiset(json) == multiset(names)
    requires multiset(dupRemoved) <= multiset(kept)
    requires mid == RemoveEach(kept, dupRemoved)
    requires hyphenRemoved == RemovedGroups(mid, TagOrder(mid), ask)
    requires keep == RemoveEach(mid, hyphenRemoved)
    ensures forall f :: multiset(keep)[f] + multiset(json)[f] + multiset(dupRemoved)[f] + multiset(hyphenRemoved)[f]
                        == if f in fileNames then 1 else 0
  {
    RemoveEachCount(kept, dupRemoved);
    HyphenPassCounts(mid, ask);
    forall f
      ensures multiset(keep)[f] + multiset(json)[f] + multiset(dupRemoved)[f] + multiset(hyphenRemoved)[f]
              == if f in fileNames then 1 else 0
    {
      assert (multiset(kept) + multiset(json))[f] == multiset(kept)[f] + multiset(json)[f];
    }
  }

  /** What each side of the chained passes may hold: the kept names are
      neither sidecars nor names whose tag's files go, the duplicate pass
      removes numbered names whose unnumbered form is a directory name that is
      not a sidecar, and the hyphen pass removes only names whose tag's files go. */
  lemma PipelineSides(fileNames: seq<string>, names: seq<string>, ask: string -> string,
                      kept: seq<string>, dupRemoved: seq<string>, mid: seq<string>,
                      hyphenRemoved: seq<string>, keep: seq<string>)
    requires forall x :: x in names <==> x in fileNames
    requires forall f :: f in kept <==> f in names && !IsJsonName(f)
    requires multiset(dupRemoved) <= multiset(kept)
    requires forall f :: f in dupRemoved ==> HasNumber(f)
    requires BaseWasPresent(kept, dupRemoved)
    requires mid == RemoveEach(kept, dupRemoved)
    requires hyphenRemoved == RemovedGroups(mid, TagOrder(mid), ask)
    requires keep == RemoveEach(mid, hyphenRemoved)
    ensures forall f :: f in keep ==> !IsJsonName(f) && !TagRemoved(f, ask)
    ensures forall f :: f in dupRemoved ==>
              HasNumber(f) && !IsJsonName(f) && StripNumbers(f) in fileNames && !IsJsonName(StripNumbers(f))
    ensures forall f :: f in hyphenRemoved ==> TagRemoved(f, ask) && !IsJsonName(f)
  {
    RemoveEachCount(kept, dupRemoved);
    HyphenPassCounts(mid, ask);
    BaseWasPresentIn(kept, dupRemoved);
    forall f
      ensures f in keep ==> !IsJsonName(f) && !TagRemoved(f, ask)
      ensures f in hyphenRemoved ==> TagRemoved(f, ask) && !IsJsonName(f)
      ensures f in dupRemoved ==> !IsJsonName(f)
    {
      assert f in keep <==> multiset(keep)[f] > 0;
      assert f in hyphenRemoved <==> multiset(hyphenRemoved)[f] > 0;
      assert f in dupRemoved <==> multiset(dupRemoved)[f] > 0;
      assert f in mid <==> multiset(mid)[f] > 0;
      assert f in kept <==> multiset(kept)[f] > 0;
    }
  }

  /** The user is prompted exactly once for each tag of the list that is on
      neither list, and for nothing else. */
  lemma PromptedOnce(files: seq<string>)
    ensures Distinct(AskedTags(TagOrder(files)))
    ensures forall t :: t in AskedTags(TagOrder(files)) <==> t in TagOrder(files) && IsAsked(t)
  {
    var tags := TagOrder(files);
    var prompted := AskedTags(tags);
    AskedTagsCount(tags);
    forall t ensures t in prompted <==> multiset(prompted)[t] > 0 {
      assert t in tags <==> multiset(tags)[t] > 0;
    }
  }

  /** The JSON pass on the names of a set: every directory name lands exactly
      once on one of its two sides. */
  lemma JsonPassCounts(fileNames: seq<string>, names: seq<string>, kept: seq<string>, json: seq<string>)
    requires Distinct(names) && forall x :: x in names <==> x in fileNames
    requires multiset(kept) + multiset(json) == multiset(names)
    ensures forall f :: multiset(kept)[f] + multiset(json)[f] == if f in fileNames then 1 else 0
  {
    SetListCounts(fileNames, names);
    forall f ensures multiset(kept)[f] + multiset(json)[f] == if f in fileNames then 1 else 0 {
      assert (multiset(kept) + multiset(json))[f] == multiset(kept)[f] + multiset(json)[f];
    }
  }

  /** The outcome of `clean_folder` for one directory, from what each pass
      promises: `toRemove` holds the three passes' removed lists in order,
      `kept` is what the JSON pass keeps and `mid` what the duplicate pass leaves. */
  lemma CleanFolderOutcome(fileNames: seq<string>, names: seq<string>, ask: string -> string,
                           kept: seq<string>, json: seq<string>, dupRemoved: seq<string>, mid: seq<string>,
                           hyphenRemoved: seq<string>, keep: seq<string>, prompted: seq<string>,
                           toRemove: seq<seq<string>>)
    requires Distinct(names) && forall x :: x in names <==> x in fileNames
    requires multiset(kept) + multiset(json) == multiset(names)
    requires forall f :: f in kept <==> f in names && !IsJsonName(f)
    requires forall f :: f in json <==> f in names && IsJsonName(f)
    requires multiset(dupRemoved) <= multiset(kept)
    requires Distinct(dupRemoved)
    requires forall f :: f in dupRemoved ==> HasNumber(f)
    requires BaseWasPresent(kept, dupRemoved)
    requires mid == RemoveEach(kept, dupRemoved)
    requires forall f :: f in kept && HasNumber(f) && f !in dupRemoved ==> StripNumbers(f) !in mid
    requires hyphenRemoved == RemovedGroups(mid, TagOrder(mid), ask)
    requires keep == RemoveEach(mid, hyphenRemoved)
    requires prompted == AskedTags(TagOrder(mid))
    requires |toRemove| == 3 && toRemove[0] == json && toRemove[1] == dupRemoved && toRemove[2] == hyphenRemoved
    // the JSON pass
    ensures forall f :: multiset(kept)[f] + multiset(toRemove[0])[f] == if f in fileNames then 1 else 0
    ensures forall f :: f in kept <==> f in fileNames && !IsJsonName(f)
    ensures forall f :: f in toRemove[0] <==> f in fileNames && IsJsonName(f)
    // the duplicate pass, on what the JSON pass kept
    ensures multiset(toRemove[1]) <= multiset(kept) && mid == RemoveEach(kept, toRemove[1])
    ensures Distinct(toRemove[1]) && forall f :: f in toRemove[1] ==> HasNumber(f)
    ensures BaseWasPresent(kept, toRemove[1])
    ensures forall f :: f in kept && HasNumber(f) && f !in toRemove[1] ==> StripNumbers(f) !in mid
    // the hyphen pass, on what the duplicate pass left
    ensures toRemove[2] == RemovedGroups(mid, TagOrder(mid), ask) && keep == RemoveEach(mid, toRemove[2])
    ensures prompted == AskedTags(TagOrder(mid))
    // what follows for the directory as a whole
    ensures forall f :: multiset(keep)[f] + multiset(toRemove[0])[f] + multiset(toRemove[1])[f] + multiset(toRemove[2])[f]
                        == if f in fileNames then 1 else 0
    ensures forall f :: f in keep ==> !IsJsonName(f) && !TagRemoved(f, ask)
    ensures forall f :: f in toRemove[1] ==>
              HasNumber(f) && !IsJsonName(f) && StripNumbers(f) in fileNames && !IsJsonName(StripNumbers(f))
    ensures forall f :: f in toRemove[2] ==> TagRemoved(f, ask) && !IsJsonName(f)
    ensures Distinct(prompted) && forall t :: t in prompted <==> t in TagOrder(mid) && IsAsked(t)
  {
    SetListCounts(fileNames, names);
    JsonPassCounts(fileNames, names, kept, json);
    PipelineCounts(fileNames, names, ask, kept, json, dupRemoved, mid, hyphenRemoved, keep);
    PipelineSides(fileNames, names, ask, kept, dupRemoved, mid, hyphenRemoved, keep);
    PromptedOnce(mid);
  }

  /** Passes 2 and 3 on the list the JSON pass returned: the same list object
      goes through both passes and is shrunk in place. `mid` is the list
      between the two passes. `photos_clean.py` has no such function: this
      is the second half of the body of `clean_folder` (photos_clean.py:14-17),
      split off so that each part's proof stays small. */
  method DuplicateAndHyphenPasses(kept: seq<string>, ask: string -> string)
    returns (duplicatesRemoved: seq<string>, ghost mid: seq<string>, hyphensRemoved: seq<string>,
             keep: seq<string>, prompted: seq<string>)
    ensures multiset(duplicatesRemoved) <= multiset(kept)
    ensures Distinct(duplicatesRemoved)
    ensures forall f :: f in duplicatesRemoved ==> HasNumber(f)
    ensures BaseWasPresent(kept, duplicatesRemoved)
    ensures mid == RemoveEach(kept, duplicatesRemoved)
    ensures forall f :: f in kept && HasNumber(f) && f !in duplicatesRemoved ==> StripNumbers(f) !in mid
    ensures hyphensRemoved == RemovedGroups(mid, TagOrder(mid), ask)
    ensures keep == RemoveEach(mid, hyphensRemoved)
    ensures prompted == AskedTags(TagOrder(mid))
  {
    var list := new NameList(kept);
    var afterDuplicates;
    afterDuplicates, duplicatesRemoved := RemoveDuplicateFiles(list);
    mid := afterDuplicates.items;
    var afterHyphens;
    afterHyphens, hyphensRemoved, prompted := RemoveUnwantedHyphenatedFiles(afterDuplicates, ask);
    keep := afterHyphens.items;
  }

  /** `clean_folder` for one directory: the JSON, duplicate and hyphen passes in
      that order, each taking the previous pass's kept names; `toRemove` gets one
      list per pass. `kept` is the list the JSON pass keeps and `mid` the list
      the duplicate pass leaves; each pass's promise is stated on them. Every
      name of the directory ends up exactly once in the kept list or in one of
      the three removed lists. */
  method CleanFolder(fileNames: seq<string>, ask: string -> string)
    returns (keep: seq<string>, toRemove: seq<seq<string>>, prompted: seq<string>,
             ghost kept: seq<string>, ghost mid: seq<string>)
    ensures |toRemove| == 3
    // the JSON pass
    ensures forall f :: multiset(kept)[f] + multiset(toRemove[0])[f] == if f in fileNames then 1 else 0
    ensures forall f :: f in kept <==> f in fileNames && !IsJsonName(f)
    ensures forall f :: f in toRemove[0] <==> f in fileNames && IsJsonName(f)
    // the duplicate pass, on what the JSON pass kept
    ensures multiset(toRemove[1]) <= multiset(kept) && mid == RemoveEach(kept, toRemove[1])
    ensures Distinct(toRemove[1]) && forall f :: f in toRemove[1] ==> HasNumber(f)
    ensures BaseWasPresent(kept, toRemove[1])
    ensures forall f :: f in kept && HasNumber(f) && f !in toRemove[1] ==> StripNumbers(f) !in mid
    // the hyphen pass, on what the duplicate pass left
    ensures toRemove[2] == RemovedGroups(mid, TagOrder(mid), ask) && keep == RemoveEach(mid, toRemove[2])
    ensures prompted == AskedTags(TagOrder(mid))
    // what follows for the directory as a whole
    ensures forall f :: multiset(keep)[f] + multiset(toRemove[0])[f] + multiset(toRemove[1])[f] + multiset(toRemove[2])[f]
                        == if f in fileNames then 1 else 0
    ensures forall f :: f in keep ==> !IsJsonName(f) && !TagRemoved(f, ask)
    ensures forall f :: f in toRemove[1] ==>
              HasNumber(f) && !IsJsonName(f) && StripNumbers(f) in fileNames && !IsJsonName(StripNumbers(f))
    ensures forall f :: f in toRemove[2] ==> TagRemoved(f, ask) && !IsJsonName(f)
    ensures Distinct(prompted) && forall t :: t in prompted <==> t in TagOrder(mid) && IsAsked(t)
  {
    var names := SetToList(set f | f in fileNames);
    toRemove := [];
    var (jsonKept, jsonRemoved) := RemoveJsonFiles(names);
    kept := jsonKept;
    toRemove := toRemove + [jsonRemoved];

    var duplicatesRemoved, hyphensRemoved;
    duplicatesRemoved, mid, hyphensRemoved, keep, prompted := DuplicateAndHyphenPasses(jsonKept, ask);
    toRemove := toRemove + [duplicatesRemoved];
    toRemove := toRemove + [hyphensRemoved];

    CleanFolderOutcome(fileNames, names, ask, jsonKept, jsonRemoved, duplicatesRemoved, mid,
                       hyphensRemoved, keep, prompted, toRemove);
  }

  // ---------------------------------------------------------------------------
  // A whole directory
  // ---------------------------------------------------------------------------

  /** A directory with a photo, its numbered copy, its sidecar, a stray sidecar
      and a snow-overlay variant of another photo. */
  const ExampleFolder: seq<string> := ["photo.jpg", "photo(1).jpg", "photo.jpg.json", "meta.json", "clip-SNOW.jpg"]

  /** What the name tests say about the five names of a directory shaped like
      `ExampleFolder`: `photo`, its numbered `copy`, the sidecars `sidecar` and
      `meta`, and `clip`, whose tag is on the remove list. */
  ghost predicate ExampleShape(photo: string, copy: string, sidecar: string, meta: string, clip: string, ask: string -> string)
  {
    && !IsJsonName(photo) && !IsJsonName(copy) && !IsJsonName(clip)
    && IsJsonName(sidecar) && IsJsonName(meta) && sidecar != meta
    && HasNumber(copy) && StripNumbers(copy) == photo
    && !HasNumber(photo) && !HasNumber(clip)
    && !TagRemoved(photo, ask) && !TagRemoved(copy, ask) && TagRemoved(clip, ask)
    && HyphenTag(photo) == None && HyphenTag(copy) == None
    && HyphenTag(clip).Some? && !IsAsked(HyphenTag(clip).value)
  }

  lemma ExampleSidecarNames()
    ensures !IsJsonName("photo.jpg") && !IsJsonName("photo(1).jpg") && !IsJsonName("clip-SNOW.jpg")
    ensures IsJsonName("photo.jpg.json") && IsJsonName("meta.json") && "photo.jpg.json" != "meta.json"
  {
    assert "photo.jpg.json"[9..] == ".json" && "meta.json"[4..] == ".json";
  }

  lemma ExampleNumberedCopy()
    ensures HasNumber("photo(1).jpg") && StripNumbers("photo(1).jpg") == "photo.jpg"
    ensures !HasNumber("photo.jpg")
  {
    assert "photo(1).jpg" == "photo" + "(1)" + ".jpg";
    assert "photo.jpg" == "photo" + ".jpg";
    NumberedCopy("photo", ".jpg");
  }

  lemma ExampleClipUnnumbered()
    ensures !HasNumber("clip-SNOW.jpg")
  {
    NoParenNoNumber("clip-SNOW.jpg");
  }

  lemma ExampleTaggedNames(ask: string -> string)
    ensures !TagRemoved("photo.jpg", ask) && !TagRemoved("photo(1).jpg", ask) && TagRemoved("clip-SNOW.jpg", ask)
    ensures HyphenTag("photo.jpg") == None && HyphenTag("photo(1).jpg") == None
    ensures HyphenTag("clip-SNOW.jpg") == Some("SNOW") && !IsAsked("SNOW")
  {
    NoHyphenNoTag("photo.jpg");
    NoHyphenNoTag("photo(1).jpg");
    HyphenTagSnowExample();
  }

  /** The names of `ExampleFolder` have the shape the example lemmas assume. */
  lemma ExampleFolderShape(ask: string -> string)
    ensures ExampleFolder == ["photo.jpg", "photo(1).jpg", "photo.jpg.json", "meta.json", "clip-SNOW.jpg"]
    ensures ExampleShape("photo.jpg", "photo(1).jpg", "photo.jpg.json", "meta.json", "clip-SNOW.jpg", ask)
  {
    ExampleSidecarNames();
    ExampleNumberedCopy();
    ExampleClipUnnumbered();
    ExampleTaggedNames(ask);
  }

  /** In such a directory, the duplicate pass's promise leaves it one choice:
      it removes `copy` and nothing else. */
  lemma ExampleDuplicates(photo: string, copy: string, sidecar: string, meta: string, clip: string, ask: string -> string,
                          kept: seq<string>, dupRemoved: seq<string>, mid: seq<string>)
    requires ExampleShape(photo, copy, sidecar, meta, clip, ask)
    requires forall f :: f in kept <==> f in [photo, copy, sidecar, meta, clip] && !IsJsonName(f)
    requires multiset(dupRemoved) <= multiset(kept) && mid == RemoveEach(kept, dupRemoved)
    requires Distinct(dupRemoved) && forall f :: f in dupRemoved ==> HasNumber(f)
    requires forall f :: f in kept && HasNumber(f) && f !in dupRemoved ==> StripNumbers(f) !in mid
    ensures dupRemoved == [copy]
  {
    assert photo in kept && copy in kept;
    assert multiset(dupRemoved)[photo] == 0;
    RemoveEachLeaves(kept, dupRemoved, photo);
    assert copy in dupRemoved;
    assert multiset(dupRemoved) <= multiset{copy} by {
      forall x ensures multiset(dupRemoved)[x] <= multiset{copy}[x] {
        if x in dupRemoved {
          assert x in multiset(kept);
          assert x in kept && HasNumber(x);
          assert x == copy;
          assert multiset(dupRemoved)[x] <= 1;
        }
      }
    }
    SingleCopy(dupRemoved, copy);
  }

  /** In such a directory, what the JSON pass removes: the two sidecars, once each. */
  lemma ExampleSidecars(photo: string, copy: string, sidecar: string, meta: string, clip: string, ask: string -> string,
                        kept: seq<string>, json: seq<string>)
    requires ExampleShape(photo, copy, sidecar, meta, clip, ask)
    requires forall f :: multiset(kept)[f] + multiset(json)[f] == if f in [photo, copy, sidecar, meta, clip] then 1 else 0
    requires forall f :: f in json <==> f in [photo, copy, sidecar, meta, clip] && IsJsonName(f)
    ensures multiset(json) == multiset{sidecar, meta}
  {
    forall f ensures multiset(json)[f] == multiset{sidecar, meta}[f] {
      assert f in json <==> multiset(json)[f] > 0;
    }
  }

  /** In such a directory, once the duplicate pass has removed `copy`, the
      partition leaves `photo` as the only name kept. */
  lemma ExampleKept(photo: string, copy: string, sidecar: string, meta: string, clip: string, ask: string -> string,
                    keep: seq<string>, json: seq<string>, dupRemoved: seq<string>, hyphenRemoved: seq<string>)
    requires ExampleShape(photo, copy, sidecar, meta, clip, ask)
    requires forall f :: multiset(keep)[f] + multiset(json)[f] + multiset(dupRemoved)[f] + multiset(hyphenRemoved)[f]
                         == if f in [photo, copy, sidecar, meta, clip] then 1 else 0
    requires forall f :: f in json ==> IsJsonName(f)
    requires dupRemoved == [copy]
    requires forall f :: f in keep ==> !IsJsonName(f) && !TagRemoved(f, ask)
    requires forall f :: f in hyphenRemoved ==> TagRemoved(f, ask)
    ensures keep == [photo]
  {
    assert multiset(keep) <= multiset{photo} by {
      forall x ensures multiset(keep)[x] <= multiset{photo}[x] {
        assert x in keep <==> multiset(keep)[x] > 0;
      }
    }
    assert photo in keep by {
      assert photo !in json && photo !in hyphenRemoved;
      assert multiset(dupRemoved)[photo] == 0;
    }
    SingleCopy(keep, photo);
  }

  /** In such a directory, `clip` is the only name the hyphen pass removes. */
  lemma ExampleTagged(photo: string, copy: string, sidecar: string, meta: string, clip: string, ask: string -> string,
                      keep: seq<string>, json: seq<string>, dupRemoved: seq<string>, hyphenRemoved: seq<string>)
    requires ExampleShape(photo, copy, sidecar, meta, clip, ask)
    requires forall f :: multiset(keep)[f] + multiset(json)[f] + multiset(dupRemoved)[f] + multiset(hyphenRemoved)[f]
                         == if f in [photo, copy, sidecar, meta, clip] then 1 else 0
    requires forall f :: f in json ==> IsJsonName(f)
    requires dupRemoved == [copy]
    requires forall f :: f in keep ==> !TagRemoved(f, ask)
    requires forall f :: f in hyphenRemoved ==> TagRemoved(f, ask) && !IsJsonName(f)
    ensures hyphenRemoved == [clip]
  {
    assert multiset(dupRemoved)[copy] == 1;
    assert multiset(hyphenRemoved) <= multiset{clip} by {
      forall x ensures multiset(hyphenRemoved)[x] <= multiset{clip}[x] {
        assert x in hyphenRemoved <==> multiset(hyphenRemoved)[x] > 0;
      }
    }
    assert clip in hyphenRemoved by {
      assert clip !in json && clip !in keep;
      assert multiset(dupRemoved)[clip] == 0;
    }
    SingleCopy(hyphenRemoved, clip);
  }

  /** When no name carries a tag that is on neither list, no key of the
      `defaultdict` is such a tag. */
  lemma {:induction false} ListedTagsOnly(files: seq<string>)
    requires forall f :: f in files && HyphenTag(f).Some? ==> !IsAsked(HyphenTag(f).value)
    ensures forall t :: t in TagOrder(files) ==> !IsAsked(t)
  {
    if files != [] {
      var init, last := files[..|files| - 1], files[|files| - 1];
      assert files == init + [last];
      ListedTagsOnly(init);
    }
  }

  /** Tags that are all on the lists get no prompt. */
  lemma {:induction false} NoneAsked(tags: seq<string>)
    requires forall t :: t in tags ==> !IsAsked(t)
    ensures AskedTags(tags) == []
  {
    if tags != [] {
      var init, last := tags[..|tags| - 1], tags[|tags| - 1];
      assert tags == init + [last];
      NoneAsked(init);
    }
  }

  /** In such a directory, every tag the JSON pass keeps is on one of the
      lists: the only tagged name is `clip`. */
  lemma ExampleTagsListed(photo: string, copy: string, sidecar: string, meta: string, clip: string, ask: string -> string,
                          kept: seq<string>)
    requires ExampleShape(photo, copy, sidecar, meta, clip, ask)
    requires forall f :: f in kept <==> f in [photo, copy, sidecar, meta, clip] && !IsJsonName(f)
    ensures forall f :: f in kept && HyphenTag(f).Some? ==> !IsAsked(HyphenTag(f).value)
  {
  }

  /** No prompt is shown when every tag the duplicate pass could leave behind
      is on one of the lists. */
  lemma ExampleNoPrompt(kept: seq<string>, dupRemoved: seq<string>, mid: seq<string>, prompted: seq<string>)
    requires forall f :: f in kept && HyphenTag(f).Some? ==> !IsAsked(HyphenTag(f).value)
    requires multiset(dupRemoved) <= multiset(kept) && mid == RemoveEach(kept, dupRemoved)
    requires prompted == AskedTags(TagOrder(mid))
    ensures prompted == []
  {
    RemoveEachCount(kept, dupRemoved);
    forall f | f in mid && HyphenTag(f).Some? ensures !IsAsked(HyphenTag(f).value) {
      assert multiset(mid)[f] > 0;
      assert f in kept;
    }
    ListedTagsOnly(mid);
    NoneAsked(TagOrder(mid));
  }

  /** `clean_folder` on `ExampleFolder`: only `photo.jpg` is kept; the JSON pass
      removes the two sidecars, the duplicate pass `photo(1).jpg` and the hyphen
      pass `clip-SNOW.jpg`, and no prompt is shown, whatever order the set
      iteration takes. */
  method CleanFolderExample(ask: string -> string) returns (keep: seq<string>, toRemove: seq<seq<string>>, prompted: seq<string>)
    ensures keep == ["photo.jpg"]
    ensures |toRemove| == 3
    ensures multiset(toRemove[0]) == multiset{"photo.jpg.json", "meta.json"}
    ensures toRemove[1] == ["photo(1).jpg"] && toRemove[2] == ["clip-SNOW.jpg"]
    ensures prompted == []
  {
    ghost var kept, mid;
    keep, toRemove, prompted, kept, mid := CleanFolder(ExampleFolder, ask);
    ExampleFolderShape(ask);
    var photo, copy, sidecar, meta, clip := "photo.jpg", "photo(1).jpg", "photo.jpg.json", "meta.json", "clip-SNOW.jpg";
    ExampleSidecars(photo, copy, sidecar, meta, clip, ask, kept, toRemove[0]);
    ExampleDuplicates(photo, copy, sidecar, meta, clip, ask, kept, toRemove[1], mid);
    ExampleKept(photo, copy, sidecar, meta, clip, ask, keep, toRemove[0], toRemove[1], toRemove[2]);
    ExampleTagged(photo, copy, sidecar, meta, clip, ask, keep, toRemove[0], toRemove[1], toRemove[2]);
    ExampleTagsListed(photo, copy, sidecar, meta, clip, ask, kept);
    ExampleNoPrompt(kept, toRemove[1], mid, prompted);
  }
}
