/**
 The recently used directories of gtk/Prefs.cc: four numbered preferences a list, written
 front to back; one list for downloads, one for relocating. An empty preference is an unused
 one, and a directory that is saved again moves to the front.
 */
module RecentDirs {
  import opened Sequences

  const MAX_RECENT_DIRS := 4

  /** One list's preferences; an empty string is an unused one. */
  type Slots = s: seq<string> | |s| == MAX_RECENT_DIRS witness ["", "", "", ""]

  const UNUSED: Slots := ["", "", "", ""]

  function NonEmpty(s: seq<string>): seq<string> {
    if s == [] then [] else (if s[0] != "" then [s[0]] else []) + NonEmpty(s[1..])
  }

  function Without(s: seq<string>, dir: string): seq<string> {
    if s == [] then [] else (if s[0] != dir then [s[0]] else []) + Without(s[1..], dir)
  }

  /** Cut to four entries, or filled up with empty ones. */
  function Resized(s: seq<string>): Slots {
    seq(MAX_RECENT_DIRS, i => if 0 <= i < |s| then s[i] else "")
  }

  function Saved(slots: Slots, dir: string): Slots {
    if dir == "" then slots else Resized([dir] + Without(NonEmpty(slots), dir))
  }

  // ----- what the lists should hold

  /** Each element once, where it first occurs. */
  ghost function Firsts(s: seq<string>): seq<string>
    decreases |s|
  {
    if s == [] then [] else [s[0]] + Without(Firsts(s[1..]), s[0])
  }

  ghost function Take(s: seq<string>): seq<string> {
    if |s| <= MAX_RECENT_DIRS then s else s[..MAX_RECENT_DIRS]
  }

  /** The directories saved under a key, oldest first. */
  ghost function SavedUnder(history: seq<(char, string)>, key: char): seq<string>
    decreases |history|
  {
    if history == [] then []
    else
      var last := history[|history| - 1];
      SavedUnder(history[..|history| - 1], key) + (if last.0 == key && last.1 != "" then [last.1] else [])
  }

  ghost function MostRecent(history: seq<(char, string)>, key: char): seq<string> {
    Take(Firsts(Reversed(SavedUnder(history, key))))
  }

  lemma {:induction false} WithoutShape(s: seq<string>, dir: string)
    ensures forall d :: d in Without(s, dir) <==> d in s && d != dir
    ensures dir !in s ==> Without(s, dir) == s
    ensures Distinct(s) ==> Distinct(Without(s, dir))
    ensures |Without(s, dir)| <= |s|
    decreases |s|
  {
    if s != [] {
      WithoutShape(s[1..], dir);
      assert s == [s[0]] + s[1..];
      assert forall d :: d in s <==> d == s[0] || d in s[1..];
      assert Distinct(s) ==> s[0] !in s[1..];
    }
  }

  lemma {:induction false} FirstsShape(s: seq<string>)
    ensures Distinct(Firsts(s)) && forall d :: d in Firsts(s) <==> d in s
    decreases |s|
  {
    if s != [] {
      FirstsShape(s[1..]);
      WithoutShape(Firsts(s[1..]), s[0]);
      assert forall d :: d in s <==> d == s[0] || d in s[1..];
    }
  }

  /** The elements of the list first occur in s in the order of the list. */
  ghost predicate InOrderOf(list: seq<string>, s: seq<string>) {
    forall i, j | 0 <= i < j < |list| :: IndexOf(s, list[i]) < IndexOf(s, list[j])
  }

  lemma {:induction false} WithoutKeepsOrder(list: seq<string>, s: seq<string>, dir: string)
    requires InOrderOf(list, s)
    ensures InOrderOf(Without(list, dir), s)
    decreases |list|
  {
    if list != [] {
      WithoutKeepsOrder(list[1..], s, dir);
      WithoutShape(list[1..], dir);
      forall d | d in list[1..]
        ensures IndexOf(s, list[0]) < IndexOf(s, d)
      {
        var k :| 0 <= k < |list[1..]| && list[1..][k] == d;
        assert list[k + 1] == d;
      }
    }
  }

  lemma {:induction false} FirstsKeepOrder(s: seq<string>)
    ensures InOrderOf(Firsts(s), s)
    decreases |s|
  {
    if s != [] {
      var rest := Without(Firsts(s[1..]), s[0]);
      FirstsKeepOrder(s[1..]);
      WithoutKeepsOrder(Firsts(s[1..]), s[1..], s[0]);
      FirstsShape(s[1..]);
      WithoutShape(Firsts(s[1..]), s[0]);
      forall d | d in rest
        ensures IndexOf(s, d) == 1 + IndexOf(s[1..], d)
      {
      }
    }
  }

  /**
   The directories read back, said of the history alone: at most four, each once, the last saved
   first; and one that is left out was last saved before each of four others.
   */
  lemma MostRecentMeans(history: seq<(char, string)>, key: char)
    ensures
      var latest, dirs := Reversed(SavedUnder(history, key)), MostRecent(history, key);
      && |dirs| <= 4 && Distinct(dirs) && InOrderOf(dirs, latest) && (forall d | d in dirs :: d in latest)
      && (forall d | d in latest && d !in dirs ::
            |dirs| == 4 && forall k | 0 <= k < 4 :: IndexOf(latest, dirs[k]) < IndexOf(latest, d))
  {
    var latest, dirs := Reversed(SavedUnder(history, key)), MostRecent(history, key);
    FirstsShape(latest);
    FirstsKeepOrder(latest);
    var firsts := Firsts(latest);
    forall d | d in latest && d !in dirs
      ensures |dirs| == 4 && forall k | 0 <= k < 4 :: IndexOf(latest, dirs[k]) < IndexOf(latest, d)
    {
      var i :| 0 <= i < |firsts| && firsts[i] == d;
      assert i >= 4 && forall k | 0 <= k < 4 :: dirs[k] == firsts[k];
    }
  }

  lemma {:induction false} WithoutAppend(a: seq<string>, b: seq<string>, dir: string)
    ensures Without(a + b, dir) == Without(a, dir) + Without(b, dir)
    decreases |a|
  {
    if a == [] {
      assert a + b == b;
    } else {
      assert (a + b)[1..] == a[1..] + b;
      WithoutAppend(a[1..], b, dir);
    }
  }

  lemma {:induction false} WithoutLength(s: seq<string>, dir: string)
    requires Distinct(s)
    ensures |Without(s, dir)| == |s| - (if dir in s then 1 else 0)
    decreases |s|
  {
    if s != [] {
      WithoutLength(s[1..], dir);
      assert s[0] !in s[1..];
      assert dir in s <==> dir == s[0] || dir in s[1..];
    }
  }

  /** Keeping four before adding at the front, or only after, makes no difference. */
  lemma TakeBeforeOrAfter(s: seq<string>, dir: string)
    requires Distinct(s)
    ensures Take([dir] + Without(Take(s), dir)) == Take([dir] + Without(s, dir))
  {
    if |s| > MAX_RECENT_DIRS {
      var front, back := s[..MAX_RECENT_DIRS], s[MAX_RECENT_DIRS..];
      assert s == front + back;
      WithoutAppend(front, back, dir);
      WithoutLength(front, dir);
    }
  }

  lemma {:induction false} NonEmptyOfFull(s: seq<string>, empties: nat)
    requires "" !in s
    ensures NonEmpty(s + seq(empties, i => "")) == s
    decreases |s| + empties
  {
    var all := s + seq(empties, i => "");
    if s != [] {
      assert all[1..] == s[1..] + seq(empties, i => "");
      NonEmptyOfFull(s[1..], empties);
    } else if empties > 0 {
      assert all[1..] == s + seq(empties - 1, i => "");
      NonEmptyOfFull(s, empties - 1);
    }
  }

  /** Reading back a list that was written resized gives its first four entries. */
  lemma NonEmptyOfResized(s: seq<string>)
    requires "" !in s
    ensures NonEmpty(Resized(s)) == Take(s)
  {
    var kept := Take(s);
    var empties: nat := MAX_RECENT_DIRS - |kept|;
    assert Resized(s) == kept + seq(empties, i => "");
    NonEmptyOfFull(kept, empties);
  }

  /** The slots hold the four most recent directories saved under the key, without gaps, and read back as them. */
  ghost predicate HoldsMostRecent(slots: Slots, history: seq<(char, string)>, key: char) {
    && "" !in SavedUnder(history, key)
    && slots == Resized(MostRecent(history, key)) && NonEmpty(slots) == MostRecent(history, key)
  }

  /** The first four of a longer history come from the first four of the shorter one. */
  lemma OneMoreSave(before: seq<string>, dir: string)
    requires "" !in before && dir != ""
    ensures
      var kept := [dir] + Without(Take(Firsts(Reversed(before))), dir);
      Take(Firsts(Reversed(before + [dir]))) == Take(kept) && "" !in kept
  {
    var firsts := Firsts(Reversed(before));
    ReversedLast(before + [dir]);
    assert (before + [dir])[..|before|] == before;
    FirstsShape(Reversed(before));
    ReversedMembers(before);
    TakeBeforeOrAfter(firsts, dir);
    WithoutShape(Take(firsts), dir);
    assert forall d | d in Take(firsts) :: d in firsts;
  }

  lemma SaveKeepsMostRecent(slots: Slots, history: seq<(char, string)>, key: char, dir: string)
    requires HoldsMostRecent(slots, history, key)
    ensures HoldsMostRecent(Saved(slots, dir), history + [(key, dir)], key)
  {
    var longer := history + [(key, dir)];
    assert longer[..|history|] == history;
    var before, after := SavedUnder(history, key), SavedUnder(longer, key);
    if dir != "" {
      assert after == before + [dir];
      OneMoreSave(before, dir);
      var kept := [dir] + Without(Take(Firsts(Reversed(before))), dir);
      assert Resized(Take(kept)) == Resized(kept);
      NonEmptyOfResized(kept);
    } else {
      assert after == before + [] == before;
    }
  }

  /** A save under one key leaves the history of another as it was. */
  lemma OtherKeyUnchanged(history: seq<(char, string)>, key: char, other: char, dir: string)
    requires other != key
    ensures SavedUnder(history + [(other, dir)], key) == SavedUnder(history, key)
  {
    assert (history + [(other, dir)])[..|history|] == history;
  }

  class Session {
    var download: Slots
    var relocate: Slots
    ghost var history: seq<(char, string)>

    /** What every sequence of saves keeps: both lists hold their four most recent directories. */
    ghost predicate Valid()
      reads this
    {
      HoldsMostRecent(download, history, 'd') && HoldsMostRecent(relocate, history, 'r')
    }

    constructor ()
      ensures Valid() && history == [] && download == UNUSED && relocate == UNUSED
    {
      download, relocate, history := UNUSED, UNUSED, [];
      assert NonEmpty(UNUSED) == [] by {
        NonEmptyOfResized([]);
      }
    }

    /** The preferences a key stands for; any other key reads as unused. */
    function Group(key: char): Slots
      reads this`download, this`relocate
    {
      match key
      case 'd' => download
      case 'r' => relocate
      case _ => UNUSED
    }

    method GetRecentDirs(key: char) returns (dirs: seq<string>)
      ensures dirs == NonEmpty(Group(key))
      ensures Valid() && (key == 'd' || key == 'r') ==> dirs == MostRecent(history, key)
    {
      dirs := [];
      for i := 0 to MAX_RECENT_DIRS
        invariant dirs + NonEmpty(Group(key)[i..]) == NonEmpty(Group(key))
      {
        NonEmptyStep(dirs, Group(key)[i..]);
        assert Group(key)[i..][1..] == Group(key)[i + 1..];
        var dir := Group(key)[i];
        if dir != "" {
          dirs := dirs + [dir];
        }
      }
    }

    method SetPref(key: char, i: nat, dir: string)
      requires i < MAX_RECENT_DIRS
      modifies this`download, this`relocate
      ensures download == if key == 'd' then old(download)[i := dir] else old(download)
      ensures relocate == if key == 'r' then old(relocate)[i := dir] else old(relocate)
    {
      match key {
        case 'd' => download := download[i := dir];
        case 'r' => relocate := relocate[i := dir];
        case _ =>
      }
    }

    method WriteAll(key: char, list: Slots)
      modifies this`download, this`relocate
      ensures download == if key == 'd' then list else old(download)
      ensures relocate == if key == 'r' then list else old(relocate)
    {
      for i := 0 to MAX_RECENT_DIRS
        invariant forall k | 0 <= k < MAX_RECENT_DIRS ::
                    download[k] == if key == 'd' && k < i then list[k] else old(download)[k]
        invariant forall k | 0 <= k < MAX_RECENT_DIRS ::
                    relocate[k] == if key == 'r' && k < i then list[k] else old(relocate)[k]
      {
        SetPref(key, i, list[i]);
      }
    }

    method SaveRecentDir(key: char, dir: string)
      requires Valid()
      modifies this
      ensures Valid() && history == old(history) + [(key, dir)]
      ensures download == if key == 'd' then Saved(old(download), dir) else old(download)
      ensures relocate == if key == 'r' then Saved(old(relocate), dir) else old(relocate)
    {
      KeepsMostRecent(key, dir);
      history := history + [(key, dir)];
      if dir == "" {
        return;
      }
      var list := GetRecentDirs(key);
      list := Without(list, dir);
      list := [dir] + list;
      WriteAll(key, Resized(list));
    }

    lemma KeepsMostRecent(key: char, dir: string)
      requires Valid()
      ensures HoldsMostRecent(if key == 'd' then Saved(download, dir) else download, history + [(key, dir)], 'd')
      ensures HoldsMostRecent(if key == 'r' then Saved(relocate, dir) else relocate, history + [(key, dir)], 'r')
    {
      if key == 'd' {
        SaveKeepsMostRecent(download, history, key, dir);
      } else {
        OtherKeyUnchanged(history, 'd', key, dir);
      }
      if key == 'r' {
        SaveKeepsMostRecent(relocate, history, key, dir);
      } else {
        OtherKeyUnchanged(history, 'r', key, dir);
      }
    }
  }

  lemma NonEmptyStep(dirs: seq<string>, s: seq<string>)
    requires s != []
    ensures dirs + NonEmpty(s) == (if s[0] != "" then dirs + [s[0]] else dirs) + NonEmpty(s[1..])
  {
    if s[0] != "" {
      MoveOver(dirs, s[0], NonEmpty(s[1..]));
    } else {
      assert NonEmpty(s) == [] + NonEmpty(s[1..]);
    }
  }
}
