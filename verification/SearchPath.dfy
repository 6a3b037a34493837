/** The search path: directories joined with colons by the configuration and taken apart by the search. */
module SearchPath {
  import opened Text

  /** `getPath`. */
  method GetPath(paths: seq<string>) returns (joined: string)
    ensures joined == Join(paths, ":")
  {
    if paths == [] {
      return "";
    }
    joined := paths[0];
    for i := 1 to |paths|
      invariant joined == Join(paths[..i], ":")
    {
      JoinSnoc(paths[..i], paths[i], ":");
      assert paths[..i + 1] == paths[..i] + [paths[i]];
      joined := joined + ":" + paths[i];
    }
    assert paths[..|paths|] == paths;
  }

  /** The items `std::getline` yields one after the other: an empty rest yields none. */
  function Items(text: string): seq<string>
    decreases |text|
  {
    if text == "" then []
    else
      match IndexOf(text, ':')
      case None => [text]
      case Some(i) => [text[..i]] + Items(text[i + 1..])
  }

  lemma {:induction false} ItemsColonFree(text: string)
    ensures forall p | p in Items(text) :: ':' !in p
    decreases |text|
  {
    if text != "" && ':' in text {
      ItemsColonFree(text[IndexOf(text, ':').value + 1..]);
    }
  }

  predicate ColonFree(paths: seq<string>) {
    forall p | p in paths :: ':' !in p
  }

  /** One `getline`: the text up to the first colon, and what is left after it. */
  lemma ItemsStep(text: string, item: string, after: string)
    requires text != ""
    requires var colon := IndexOf(text, ':');
             if colon.Some? then item == text[..colon.value] && after == text[colon.value + 1..]
             else item == text && after == ""
    ensures Items(text) == [item] + Items(after)
  {
  }

  lemma {:induction false} ItemsHead(first: string, rest: string)
    requires ':' !in first
    ensures Items(first + ":" + rest) == [first] + Items(rest)
  {
    var text := first + ":" + rest;
    IndexOfUnique(first, ':', rest);
    assert text == first + [':'] + rest;
    assert text[..|first|] == first && text[|first| + 1..] == rest;
    ItemsStep(text, first, rest);
  }

  /** The list without its last entry if that is empty. */
  function Trim(paths: seq<string>): seq<string> {
    if paths == [] || paths == [""] then [] else [paths[0]] + Trim(paths[1..])
  }

  /** Splitting undoes joining, up to an empty last entry, which is lost. */
  lemma {:induction false} ItemsOfJoin(paths: seq<string>)
    requires ColonFree(paths)
    ensures Items(Join(paths, ":")) == Trim(paths)
  {
    if |paths| == 1 {
      assert paths[0] in paths && paths == [paths[0]];
      if paths[0] != "" {
        ItemsStep(paths[0], paths[0], "");
        assert Trim(paths) == [paths[0]] + Trim(paths[1..]);
      }
    } else if |paths| > 1 {
      assert ColonFree(paths[1..]);
      ItemsHead(paths[0], Join(paths[1..], ":"));
      ItemsOfJoin(paths[1..]);
    }
  }

  lemma {:induction false} TrimKeeps(paths: seq<string>)
    ensures Trim(paths) == paths <==> paths == [] || paths[|paths| - 1] != ""
    ensures |Trim(paths)| <= |paths|
    ensures NonEmpty(Trim(paths)) == NonEmpty(paths)
  {
    if paths != [] {
      TrimKeeps(paths[1..]);
      assert paths == [paths[0]] + paths[1..];
      if paths == [""] {
        assert paths[1..] == [];
      } else {
        assert Trim(paths)[1..] == Trim(paths[1..]);
      }
    }
  }

  /** Which lists of directories survive the trip: those without a colon in an entry or an empty last one. */
  lemma {:induction false} SplitInvertsJoin(paths: seq<string>)
    ensures Items(Join(paths, ":")) == paths <==>
            ColonFree(paths) && (paths == [] || paths[|paths| - 1] != "")
  {
    ItemsColonFree(Join(paths, ":"));
    if ColonFree(paths) {
      ItemsOfJoin(paths);
      TrimKeeps(paths);
    }
  }

  /** The search skips empty items. */
  function NonEmpty(items: seq<string>): seq<string> {
    if items == [] then []
    else (if items[0] == "" then [] else [items[0]]) + NonEmpty(items[1..])
  }

  /** Where there is no empty item all are searched, in their order. */
  lemma {:induction false} NonEmptyKeeps(items: seq<string>)
    requires "" !in items
    ensures NonEmpty(items) == items
  {
    if items != [] {
      NonEmptyKeeps(items[1..]);
      assert items == [items[0]] + items[1..] && items[0] in items;
    }
  }

  /** An empty item makes no difference, wherever it stands. */
  lemma {:induction false} NonEmptyDrops(a: seq<string>, b: seq<string>)
    ensures NonEmpty(a + [""] + b) == NonEmpty(a + b)
  {
    var all := a + [""] + b;
    if a == [] {
      assert all[1..] == b && a + b == b;
    } else {
      assert all[1..] == a[1..] + [""] + b && (a + b)[1..] == a[1..] + b;
      NonEmptyDrops(a[1..], b);
    }
  }

  lemma {:induction false} NonEmptyCons(dirs: seq<string>, item: string, items: seq<string>)
    ensures dirs + NonEmpty([item] + items) == (if item == "" then dirs else dirs + [item]) + NonEmpty(items)
  {
    assert ([item] + items)[1..] == items;
    if item == "" {
      assert NonEmpty([item] + items) == NonEmpty(items);
    } else {
      assert dirs + ([item] + NonEmpty(items)) == (dirs + [item]) + NonEmpty(items);
    }
  }

  /** So for the directories that are searched an empty entry anywhere makes no difference. */
  lemma {:induction false} SearchedDirectories(paths: seq<string>)
    requires ColonFree(paths)
    ensures NonEmpty(Items(Join(paths, ":"))) == NonEmpty(paths)
  {
    ItemsOfJoin(paths);
    TrimKeeps(paths);
  }

  // ---- Entries with colons -------------------------------------------------------------------

  predicate Absolute(path: string) {
    path != "" && path[0] == '/'
  }

  /** What the configuration is checked for: every entry starts with a slash. */
  predicate AllAbsolute(paths: seq<string>) {
    forall i | 0 <= i < |paths| :: Absolute(paths[i])
  }

  /** Wherever a colon splits the text, what follows is a slash, another colon or nothing. */
  predicate Steady(text: string) {
    forall i | 0 <= i < |text| - 1 && text[i] == ':' :: text[i + 1] == '/' || text[i + 1] == ':'
  }

  /** What is searched in a text that starts with a slash or a colon is absolute exactly if no colon spoils it. */
  lemma {:induction false} ItemsSteady(text: string)
    requires Rooted(text)
    ensures AllAbsolute(NonEmpty(Items(text))) <==> Steady(text)
    decreases |text|
  {
    var colon := IndexOf(text, ':');
    if colon.Some? {
      var item, after := text[..colon.value], text[colon.value + 1..];
      assert text == item + ":" + after;
      if Rooted(after) {
        ItemsSteady(after);
      } else {
        ItemsStartRelative(after);
      }
      SteadySplit(item, after);
      ItemsHead(item, after);
      SearchedFirst(item, Items(after));
    } else if text != "" {
      LastItemSteady(text);
    }
  }

  lemma {:induction false} LastItemSteady(text: string)
    requires text != "" && ':' !in text && Rooted(text)
    ensures AllAbsolute(NonEmpty(Items(text))) && Steady(text)
  {
    assert Items(text) == [text] && Items(text)[1..] == [];
  }

  /** The text is empty or starts with a slash or a colon. */
  predicate Rooted(text: string) {
    text != "" ==> text[0] == '/' || text[0] == ':'
  }

  lemma {:induction false} SearchedFirst(item: string, items: seq<string>)
    requires item != "" ==> item[0] == '/'
    ensures AllAbsolute(NonEmpty([item] + items)) <==> AllAbsolute(NonEmpty(items))
  {
    assert ([item] + items)[1..] == items;
    if item == "" {
      assert NonEmpty([item] + items) == NonEmpty(items);
    } else {
      AbsoluteCons(item, NonEmpty(items));
    }
  }

  lemma {:induction false} AbsoluteCons(item: string, items: seq<string>)
    ensures AllAbsolute([item] + items) <==> Absolute(item) && AllAbsolute(items)
  {
    assert ([item] + items)[0] == item;
    assert forall i | 0 <= i < |items| :: ([item] + items)[i + 1] == items[i];
  }

  lemma {:induction false} SteadySplit(item: string, after: string)
    requires ':' !in item
    ensures Steady(item + ":" + after) <==> Steady(after) && Rooted(after)
  {
    var text := item + ":" + after;
    assert text[|item|] == ':' && text[|item| + 1..] == after;
    assert forall i | 0 <= i < |after| :: text[|item| + 1 + i] == after[i];
    assert forall i | 0 <= i < |item| :: text[i] == item[i] && item[i] in item;
  }

  /** A text that starts with neither a slash nor a colon has a relative first item. */
  lemma {:induction false} ItemsStartRelative(text: string)
    requires !Rooted(text)
    ensures !AllAbsolute(NonEmpty(Items(text)))
  {
    var first := Items(text)[0];
    assert first != "" && first[0] == text[0];
    assert NonEmpty(Items(text))[0] == first;
  }

  lemma {:induction false} SteadyJoin(paths: seq<string>)
    requires AllAbsolute(paths)
    ensures Steady(Join(paths, ":")) <==> forall i | 0 <= i < |paths| :: Steady(paths[i])
    ensures paths != [] ==> Absolute(Join(paths, ":"))
  {
    if |paths| > 1 {
      var rest := Join(paths[1..], ":");
      assert forall i | 0 <= i < |paths[1..]| :: paths[1..][i] == paths[i + 1];
      SteadyJoin(paths[1..]);
      SteadyConcat(paths[0], rest);
      assert forall i | 0 < i < |paths| :: paths[i] == paths[1..][i - 1];
    }
  }

  lemma SteadyConcat(first: string, rest: string)
    requires Absolute(rest)
    ensures Steady(first + ":" + rest) <==> Steady(first) && Steady(rest)
  {
    var text := first + ":" + rest;
    assert forall i | 0 <= i < |first| :: text[i] == first[i];
    assert text[|first|] == ':';
    assert forall i | 0 <= i < |rest| :: text[|first| + 1 + i] == rest[i];
  }

  /**
   * The check of the entries looks at their first characters only. It keeps relative directories out of the
   * search exactly when no entry has a colon followed by anything but a slash or another colon.
   */
  lemma SearchStaysAbsolute(paths: seq<string>)
    requires AllAbsolute(paths)
    ensures AllAbsolute(NonEmpty(Items(Join(paths, ":")))) <==> forall i | 0 <= i < |paths| :: Steady(paths[i])
  {
    SteadyJoin(paths);
    ItemsSteady(Join(paths, ":"));
  }

  /** A colon inside an entry makes two of it. */
  lemma {:induction false} EntrySplits(first: string, rest: string)
    requires ':' !in first && ':' !in rest && rest != ""
    ensures Items(Join([first + ":" + rest], ":")) == [first, rest]
  {
    ItemsHead(first, rest);
    ItemsStep(rest, rest, "");
    assert Items(rest) == [rest];
  }

  /** An entry that is accepted and makes a relative directory part of the search. */
  lemma {:induction false} ColonHidesRelative(entry: string)
    requires entry == "/opt:bin"
    ensures AllAbsolute([entry]) && Items(Join([entry], ":")) == ["/opt", "bin"] && !Absolute("bin")
  {
    assert entry == "/opt" + ":" + "bin";
    EntrySplits("/opt", "bin");
  }
}
