/** The selection state of the photo picker: taps on cells and album switches. */
module Picker {

  datatype Kind = Image | Video | Other

  datatype Mode = OnlyImages | OnlyVideos | ImageAndVideo | ImageOrVideo

  /** An asset of the photo library. */
  datatype Asset = Asset(id: string, kind: Kind)

  /** HEPhotoAsset: an asset as one album shows it. */
  class PhotoAsset {
    const asset: Asset
    const index: nat
    const isEnableSelected: bool
    var isSelected: bool
    var isEnable: bool

    constructor (asset: Asset, index: nat, isEnableSelected: bool)
      ensures this.asset == asset && this.index == index && this.isEnableSelected == isEnableSelected
      ensures !isSelected && isEnable
    {
      this.asset, this.index, this.isEnableSelected := asset, index, isEnableSelected;
      isSelected, isEnable := false, true;
    }
  }

  // ----- selections -----

  ghost predicate Distinct(s: seq<Asset>)
  {
    forall i, j :: 0 <= i < j < |s| ==> s[i].id != s[j].id
  }

  function Count(s: seq<Asset>, kind: Kind): (n: nat)
  {
    if s == [] then 0
    else Count(s[..|s| - 1], kind) + if s[|s| - 1].kind == kind then 1 else 0
  }

  predicate Contains(s: seq<Asset>, id: string)
  {
    exists i :: 0 <= i < |s| && s[i].id == id
  }

  /** removeAll(where:) by identifier. */
  function Removed(s: seq<Asset>, id: string): (r: seq<Asset>)
  {
    if s == [] then []
    else
      var front := Removed(s[..|s| - 1], id);
      if s[|s| - 1].id == id then front else front + [s[|s| - 1]]
  }

  /** Nothing but the identifier goes. */
  lemma {:induction false} RemovedMembers(s: seq<Asset>, id: string, other: string)
    ensures Contains(Removed(s, id), other) <==> Contains(s, other) && other != id
  {
    if s != [] {
      var front, last := s[..|s| - 1], s[|s| - 1];
      RemovedMembers(front, id, other);
      assert s == front + [last];
      ContainsAppend(front, last, other);
      ContainsAppend(Removed(front, id), last, other);
    }
  }

  /** No count grows and nothing comes. */
  lemma {:induction false} RemovedCount(s: seq<Asset>, id: string, kind: Kind)
    ensures Count(Removed(s, id), kind) <= Count(s, kind)
    ensures forall i :: 0 <= i < |Removed(s, id)| ==> Removed(s, id)[i] in s
  {
    if s != [] {
      var front, last := s[..|s| - 1], s[|s| - 1];
      RemovedCount(front, id, kind);
      assert (Removed(front, id) + [last])[..|Removed(front, id)|] == Removed(front, id);
    }
  }

  lemma ContainsAppend(s: seq<Asset>, a: Asset, id: string)
    ensures Contains(s + [a], id) <==> Contains(s, id) || a.id == id
  {
    if Contains(s, id) {
      var i :| 0 <= i < |s| && s[i].id == id;
      assert (s + [a])[i].id == id;
    }
    if a.id == id {
      assert (s + [a])[|s|].id == id;
    }
  }

  lemma {:induction false} RemovedDistinct(s: seq<Asset>, id: string)
    requires Distinct(s)
    ensures Distinct(Removed(s, id))
  {
    if s != [] {
      var front, last := s[..|s| - 1], s[|s| - 1];
      RemovedDistinct(front, id);
      RemovedMembers(front, id, last.id);
    }
  }

  /** Taking out the only occurrence that was just put in gives the old selection. */
  lemma {:induction false} RemovedAbsent(s: seq<Asset>, id: string)
    requires !Contains(s, id)
    ensures Removed(s, id) == s
  {
    if s != [] {
      var front, last := s[..|s| - 1], s[|s| - 1];
      assert s == front + [last];
      ContainsAppend(front, last, id);
      RemovedAbsent(front, id);
    }
  }

  // ----- the rules of a tap and of the cells -----

  datatype Options = Options(mode: Mode, maxImage: int, maxVideo: int, singlePicture: bool, singleVideo: bool)
  {
    function Limit(): (n: int) { maxImage + maxVideo }
  }

  /** configPickerOption's switch and the two adjustments after it. */
  function Configured(o: Options): (r: Options)
  {
    var p := match o.mode
             case ImageAndVideo => o.(singlePicture := false, singleVideo := false)
             case ImageOrVideo => o.(singlePicture := false)
             case OnlyImages => o.(maxVideo := 0)
             case OnlyVideos => o.(maxImage := 0);
    var q := if p.singleVideo then p.(maxVideo := 0) else p;
    if q.singlePicture then q.(maxImage := 0) else q
  }

  /** A kind without check marks has no room either, and configuring again changes nothing. */
  lemma ConfiguredConsistent(o: Options, kind: Kind)
    ensures Configured(Configured(o)) == Configured(o)
    ensures !Checkable(Configured(o), kind) ==> !HasRoom(Configured(o), [], kind)
  {
  }

  /** What configuring leaves of each option. */
  lemma ConfiguredExact(o: Options)
    ensures var r := Configured(o);
            && r.mode == o.mode
            && r.singlePicture == (o.singlePicture && (o.mode == OnlyImages || o.mode == OnlyVideos))
            && r.singleVideo == (o.singleVideo && o.mode != ImageAndVideo)
            && r.maxImage == (if o.mode == OnlyVideos || r.singlePicture then 0 else o.maxImage)
            && r.maxVideo == (if o.mode == OnlyImages || r.singleVideo then 0 else o.maxVideo)
  {
  }

  /** checkIsSingle: whether the cell shows a check mark to tap. */
  predicate Checkable(o: Options, kind: Kind)
  {
    !(kind == Image && o.singlePicture) && !(kind == Video && o.singleVideo)
  }

  /** The guards of updateSelectedCell. */
  predicate HasRoom(o: Options, selected: seq<Asset>, kind: Kind)
  {
    match kind
    case Image => Count(selected, Image) < o.maxImage
    case Video => Count(selected, Video) < o.maxVideo
    case Other => true
  }

  ghost predicate Within(o: Options, selected: seq<Asset>)
  {
    Count(selected, Image) <= o.maxImage && Count(selected, Video) <= o.maxVideo
  }

  ghost predicate OneKind(selected: seq<Asset>)
  {
    forall i :: 0 <= i < |selected| ==> selected[i].kind == selected[0].kind
  }

  ghost predicate NoOther(s: seq<Asset>)
  {
    forall i :: 0 <= i < |s| ==> s[i].kind != Other
  }

  /** What holds of the selection between steps. */
  ghost predicate SelectionOk(o: Options, selected: seq<Asset>)
  {
    Distinct(selected) && Within(o, selected)
  }

  /** What the branches of setCellState make of an unselected cell in the either-or mode. */
  predicate CellOpen(o: Options, selected: seq<Asset>, kind: Kind)
  {
    selected == [] ||
    (|selected| < o.Limit() && !(selected[0].kind == Image && kind == Video) && !(selected[0].kind == Video &&
        kind == Image))
  }

  /** When an unselected cell can be tapped. */
  predicate Open(o: Options, selected: seq<Asset>, kind: Kind)
  {
    o.mode == ImageOrVideo ==> CellOpen(o, selected, kind)
  }

  /** Among images and videos: when nothing is selected, or the total is below the maximum
      and the kind is that of the selection. */
  lemma OpenRule(o: Options, selected: seq<Asset>, kind: Kind)
    requires kind != Other && NoOther(selected)
    ensures CellOpen(o, selected, kind) <==>
            selected == [] || (|selected| < o.maxImage + o.maxVideo && selected[0].kind == kind)
  {
    if selected != [] {
      assert selected[0].kind != Other;
    }
  }

  /** The selection after a tap on the cell of a. */
  function Tapped(o: Options, selected: seq<Asset>, a: Asset): (r: seq<Asset>)
  {
    if Contains(selected, a.id) then Removed(selected, a.id)
    else if HasRoom(o, selected, a.kind) then selected + [a]
    else selected
  }

  lemma RemovedKeeps(o: Options, selected: seq<Asset>, id: string)
    requires SelectionOk(o, selected)
    ensures SelectionOk(o, Removed(selected, id))
  {
    RemovedDistinct(selected, id);
    RemovedCount(selected, id, Image);
    RemovedCount(selected, id, Video);
  }

  lemma AddedKeeps(o: Options, selected: seq<Asset>, a: Asset)
    requires SelectionOk(o, selected) && !Contains(selected, a.id) && HasRoom(o, selected, a.kind)
    ensures SelectionOk(o, selected + [a])
  {
    hide Distinct, Contains, Count;
    AddedDistinct(selected, a);
    AddedCount(selected, a, Image);
    AddedCount(selected, a, Video);
  }

  lemma AddedDistinct(s: seq<Asset>, a: Asset)
    requires Distinct(s) && !Contains(s, a.id)
    ensures Distinct(s + [a])
  {
    assert forall i :: 0 <= i < |s| ==> s[i].id != a.id;
  }

  lemma {:induction false} AddedCount(s: seq<Asset>, a: Asset, kind: Kind)
    ensures Count(s + [a], kind) == Count(s, kind) + if a.kind == kind then 1 else 0
  {
    assert (s + [a])[..|s|] == s;
  }

  /** A tap keeps identifiers distinct and counts within the limits. */
  lemma TappedKeeps(o: Options, selected: seq<Asset>, a: Asset)
    requires SelectionOk(o, selected)
    ensures SelectionOk(o, Tapped(o, selected, a))
  {
    if Contains(selected, a.id) {
      RemovedKeeps(o, selected, a.id);
    } else if HasRoom(o, selected, a.kind) {
      AddedKeeps(o, selected, a);
    }
  }

  /** A tap on a cell that may be tapped keeps the selection of one kind, among images and
      videos. */
  lemma TappedOneKind(o: Options, selected: seq<Asset>, a: Asset)
    requires NoOther(selected) && OneKind(selected) && a.kind != Other
    requires Contains(selected, a.id) || CellOpen(o, selected, a.kind)
    ensures NoOther(Tapped(o, selected, a)) && OneKind(Tapped(o, selected, a))
  {
    if Contains(selected, a.id) {
      RemovedCount(selected, a.id, Image);
      var r := Removed(selected, a.id);
      forall i | 0 <= i < |r| ensures r[i].kind == selected[0].kind && r[i].kind != Other {
        assert r[i] in selected;
      }
    } else {
      OpenRule(o, selected, a.kind);
    }
  }

  /** A tap on an unselected cell is refused exactly when its kind has reached its limit, never
      for a third kind; otherwise the asset is appended. */
  lemma TapRefused(o: Options, selected: seq<Asset>, a: Asset)
    requires Within(o, selected) && !Contains(selected, a.id)
    ensures a.kind == Image ==>
              Tapped(o, selected, a) == (if Count(selected, Image) == o.maxImage then selected else selected + [a])
    ensures a.kind == Video ==>
              Tapped(o, selected, a) == (if Count(selected, Video) == o.maxVideo then selected else selected + [a])
    ensures a.kind == Other ==> Tapped(o, selected, a) == selected + [a]
  {
  }

  /** Membership afterwards, for every identifier. */
  lemma TappedMembers(o: Options, selected: seq<Asset>, a: Asset, id: string)
    ensures Contains(Tapped(o, selected, a), id) <==>
            if id == a.id then !Contains(selected, id) && HasRoom(o, selected, a.kind) else Contains(selected, id)
  {
    RemovedMembers(selected, a.id, id);
    ContainsAppend(selected, a, id);
  }

  /** Two taps on one cell undo each other, where the first one had an effect. */
  lemma TappedTwice(o: Options, selected: seq<Asset>, a: Asset)
    requires !Contains(selected, a.id) && HasRoom(o, selected, a.kind)
    ensures Tapped(o, Tapped(o, selected, a), a) == selected
  {
    ContainsAppend(selected, a, a.id);
    assert (selected + [a])[..|selected|] == selected;
    RemovedAbsent(selected, a.id);
  }

  /** With assets of a third kind the one-kind rule fails: such an asset chosen first leaves
      images and videos open side by side, whichever they are. */
  lemma OtherKindMixes(x: Asset, i: Asset, v: Asset)
    requires x.kind == Other && i.kind == Image && v.kind == Video && Distinct([x, i, v])
    ensures var o := Options(ImageOrVideo, 9, 2, false, false);
            && CellOpen(o, [x], Image) && CellOpen(o, [x, i], Video)
            && Tapped(o, Tapped(o, [x], i), v) == [x, i, v]
  {
    var all := [x, i, v];
    assert all[0].id != all[1].id && all[0].id != all[2].id && all[1].id != all[2].id;
    assert [x, i][..1] == [x] && [x][..0] == [] && [x] + [i] == [x, i] && [x, i] + [v] == all;
    assert Count([x], Image) == 0 && Count([x], Video) == 0 && Count([x, i], Video) == 0;
    assert !Contains([x], i.id) && !Contains([x, i], v.id);
  }

  /** Exactly then does the one-kind rule survive a further open cell: when the cell is of a
      third kind just as the selection is. */
  lemma MixesExactly(o: Options, selected: seq<Asset>, a: Asset)
    requires selected != [] && OneKind(selected) && CellOpen(o, selected, a.kind)
    ensures OneKind(selected + [a]) <==> (a.kind == Other <==> selected[0].kind == Other)
  {
    var r := selected + [a];
    assert r[0] == selected[0] && r[|selected|] == a;
  }

  // ----- one cell in setCellState -----

  function CellSelected(update: bool, selected: seq<Asset>, id: string, was: bool): (r: bool)
  {
    if update then Contains(selected, id) else was
  }

  function CellEnabled(o: Options, selected: seq<Asset>, kind: Kind, isSelected: bool, was: bool): (r: bool)
  {
    if o.mode != ImageOrVideo then was
    else if selected == [] then true
    else if isSelected then was
    else CellOpen(o, selected, kind)
  }

  /** A cell after setCellState, given its two flags before. */
  ghost predicate CellSet(o: Options, selected: seq<Asset>, update: bool, item: PhotoAsset, wasSelected: bool,
      wasEnabled: bool)
    reads item
  {
    && item.isSelected == CellSelected(update, selected, item.asset.id, wasSelected)
    && item.isEnable == CellEnabled(o, selected, item.asset.kind, item.isSelected, wasEnabled)
  }

  /** A cell that was enabled if it is marked ends up as CellOk wants it. */
  lemma CellSettled(o: Options, selected: seq<Asset>, a: Asset, isSelected: bool, was: bool)
    requires isSelected || o.mode != ImageOrVideo ==> was
    ensures CellEnabled(o, selected, a.kind, isSelected, was) == (isSelected || Open(o, selected, a.kind))
  {
  }

  /** The tapped cell afterwards. */
  lemma TappedCell(o: Options, before: seq<Asset>, a: Asset)
    requires Contains(before, a.id) || HasRoom(o, before, a.kind)
    ensures var after, marked := Tapped(o, before, a), !Contains(before, a.id);
            && Contains(after, a.id) == marked
            && CellEnabled(o, after, a.kind, marked, true) == (marked || Open(o, after, a.kind))
  {
    TappedMembers(o, before, a, a.id);
  }

  /** Any other cell afterwards. */
  lemma OtherCell(o: Options, before: seq<Asset>, a: Asset, b: Asset)
    requires a.id != b.id
    ensures var after, marked := Tapped(o, before, a), Contains(before, b.id);
            && Contains(after, b.id) == marked
            && CellEnabled(o, after, b.kind, marked, marked || Open(o, before, b.kind)) ==
                (marked || Open(o, after, b.kind))
  {
    TappedMembers(o, before, a, b.id);
  }

  /** The loop body of setCellState for one cell; reload tells whether the cell's index goes
      into the set of cells to refresh. */
  method SetCell(item: PhotoAsset, o: Options, selected: seq<Asset>, tapped: int, update: bool) returns (reload: bool)
    modifies item
    ensures CellSet(o, selected, update, item, old(item.isSelected), old(item.isEnable))
    ensures !update && item.isEnable != old(item.isEnable) ==> reload || item.index == tapped
  {
    reload := false;
    if update {
      item.isSelected := Contains(selected, item.asset.id);
    }
    if !item.isSelected && o.mode == ImageOrVideo {
      if |selected| < o.Limit() && !item.isEnable {
        item.isEnable := true;
        reload := true;
      } else if |selected| >= o.Limit() && item.isEnable {
        item.isEnable := false;
        reload := true;
      }
      if |selected| > 0 {
        if selected[0].kind == Image {
          if item.asset.kind == Video {
            item.isEnable := false;
            if !update && item.index != tapped {
              reload := true;
            }
          }
        } else if selected[0].kind == Video {
          if item.asset.kind == Image {
            item.isEnable := false;
            if !update && item.index != tapped {
              reload := true;
            }
          }
        }
      }
    }
    if |selected| <= 0 && o.mode == ImageOrVideo {
      item.isEnable := true;
      reload := true;
    }
  }

  // ----- the controller -----

  function Assets(models: seq<PhotoAsset>): (s: seq<Asset>)
    ensures |s| == |models|
  {
    seq(|models|, i requires 0 <= i < |models| => models[i].asset)
  }

  /** The cells show one album: numbered in order, distinct assets, allowed kinds. */
  ghost predicate Album(models: seq<PhotoAsset>)
  {
    && (forall i :: 0 <= i < |models| ==> models[i].index == i)
    && Distinct(Assets(models))
  }

  /** One cell tells the truth: marked exactly when its asset is selected, never disabled
      while marked, otherwise enabled exactly by the rule. */
  ghost predicate CellOk(o: Options, selected: seq<Asset>, item: PhotoAsset)
    reads item
  {
    && item.isSelected == Contains(selected, item.asset.id)
    && item.isEnable == (item.isSelected || Open(o, selected, item.asset.kind))
    && item.isEnableSelected == Checkable(o, item.asset.kind)
  }

  // ----- whole sessions -----

  datatype Event = Tap(index: nat) | Show(photos: seq<Asset>)

  /** Selection and album as values. */
  datatype Screen = Screen(selected: seq<Asset>, album: seq<Asset>)

  /** A cell reacts when it has a check mark and is not covered. */
  predicate Reacts(o: Options, s: Screen, index: nat)
  {
    index < |s.album| && Checkable(o, s.album[index].kind) &&
    (Contains(s.selected, s.album[index].id) || Open(o, s.selected, s.album[index].kind))
  }

  function Next(o: Options, s: Screen, e: Event): (r: Screen)
  {
    match e
    case Tap(i) => if Reacts(o, s, i) then s.(selected := Tapped(o, s.selected, s.album[i])) else s
    case Show(photos) => s.(album := photos)
  }

  function Later(o: Options, s: Screen, events: seq<Event>): (r: Screen)
  {
    if events == [] then s else Next(o, Later(o, s, events[..|events| - 1]), events[|events| - 1])
  }

  ghost predicate EventsOk(events: seq<Event>)
  {
    forall i :: 0 <= i < |events| && events[i].Show? ==> Distinct(events[i].photos)
  }

  /** All assets a session meets are images and videos. */
  ghost predicate OnlyKnownKinds(s: Screen, events: seq<Event>)
  {
    && NoOther(s.selected) && NoOther(s.album)
    && forall i :: 0 <= i < |events| && events[i].Show? ==> NoOther(events[i].photos)
  }

  /** Every run keeps identifiers distinct and counts within the limits. */
  lemma {:induction false} RunKeeps(o: Options, s: Screen, events: seq<Event>)
    requires SelectionOk(o, s.selected) && Distinct(s.album) && EventsOk(events)
    ensures SelectionOk(o, Later(o, s, events).selected) && Distinct(Later(o, s, events).album)
    decreases |events|
  {
    if events != [] {
      var front, last := events[..|events| - 1], events[|events| - 1];
      RunKeeps(o, s, front);
      var t := Later(o, s, front);
      if last.Tap? && Reacts(o, t, last.index) {
        TappedKeeps(o, t.selected, t.album[last.index]);
      }
    }
  }

  /** Every run in the either-or mode keeps the selection of one kind, as long as it meets
      images and videos only; OtherKindMixes shows that it need not otherwise. */
  lemma {:induction false} RunOneKind(o: Options, s: Screen, events: seq<Event>)
    requires o.mode == ImageOrVideo && OneKind(s.selected) && OnlyKnownKinds(s, events)
    ensures var r := Later(o, s, events); OneKind(r.selected) && NoOther(r.selected) && NoOther(r.album)
    decreases |events|
  {
    if events != [] {
      var front, last := events[..|events| - 1], events[|events| - 1];
      RunOneKind(o, s, front);
      var t := Later(o, s, front);
      if last.Tap? && Reacts(o, t, last.index) {
        TappedOneKind(o, t.selected, t.album[last.index]);
      }
    }
  }

  // ----- every admissible selection is reached -----

  /** The taps that choose the assets of goal one after the other. */
  function Taps(album: seq<Asset>, goal: seq<Asset>): (events: seq<Event>)
    requires forall i :: 0 <= i < |goal| ==> goal[i] in album
    ensures |events| == |goal| && forall i :: 0 <= i < |events| ==> events[i].Tap?
  {
    seq(|goal|, i requires 0 <= i < |goal| => Tap(PlaceOf(album, goal[i])))
  }

  function PlaceOf(album: seq<Asset>, a: Asset): (i: nat)
    requires a in album
    ensures i < |album| && album[i] == a
  {
    if album[0] == a then 0 else 1 + PlaceOf(album[1..], a)
  }

  /** What the options allow to be selected from an album. */
  ghost predicate Admissible(o: Options, album: seq<Asset>, goal: seq<Asset>)
  {
    && Distinct(goal) && Within(o, goal) && (o.mode == ImageOrVideo ==> OneKind(goal))
    && forall i :: 0 <= i < |goal| ==>
         && goal[i] in album
         && (goal[i].kind == Image ==> !o.singlePicture) && (goal[i].kind == Video ==> !o.singleVideo)
  }

  lemma {:induction false} CountAtMost(s: seq<Asset>, kind: Kind)
    ensures Count(s, kind) <= |s|
    ensures (forall i :: 0 <= i < |s| ==> s[i].kind == kind) ==> Count(s, kind) == |s|
    decreases |s|
  {
    if s != [] {
      CountAtMost(s[..|s| - 1], kind);
    }
  }

  lemma AdmissibleFront(o: Options, album: seq<Asset>, goal: seq<Asset>)
    requires Admissible(o, album, goal) && goal != []
    ensures var n := |goal| - 1;
            && Admissible(o, album, goal[..n])
            && !Contains(goal[..n], goal[n].id) && HasRoom(o, goal[..n], goal[n].kind)
  {
    var n := |goal| - 1;
    var front := goal[..n];
    assert forall i :: 0 <= i < n ==> front[i] == goal[i];
  }

  /** The next asset's cell is open. */
  lemma NextOpen(o: Options, album: seq<Asset>, goal: seq<Asset>)
    requires Admissible(o, album, goal) && goal != [] && NoOther(goal)
    ensures Open(o, goal[..|goal| - 1], goal[|goal| - 1].kind)
  {
    hide Distinct, Checkable;
    var n := |goal| - 1;
    if o.mode == ImageOrVideo && n > 0 {
      CountAtMost(goal, goal[0].kind);
      assert goal[n].kind == goal[0].kind && goal[..n][0] == goal[0] && goal[0].kind != Other;
      assert Count([], Image) == 0;
      NoneNegative(o, goal);
    }
  }

  lemma NoneNegative(o: Options, s: seq<Asset>)
    requires Within(o, s)
    ensures o.maxImage >= 0 && o.maxVideo >= 0
  {
  }

  /** Among images and videos, tapping the assets of an admissible selection in turn leads from
      the empty selection to it. */
  lemma {:induction false} TapsReach(o: Options, album: seq<Asset>, goal: seq<Asset>)
    requires Admissible(o, album, goal) && NoOther(goal)
    ensures Later(o, Screen([], album), Taps(album, goal)) == Screen(goal, album)
    decreases |goal|
  {
    hide Admissible, Open, Checkable, Contains, HasRoom;
    assert forall i :: 0 <= i < |goal| ==> goal[i] in album by { InAlbum(o, album, goal); }
    if goal != [] {
      var n := |goal| - 1;
      AdmissibleFront(o, album, goal);
      TapsReach(o, album, goal[..n]);
      assert Taps(album, goal)[..n] == Taps(album, goal[..n]);
      NextOpen(o, album, goal);
      assert Checkable(o, goal[n].kind) by { InAlbum(o, album, goal); }
      assert goal[..n] + [goal[n]] == goal;
    }
  }

  lemma InAlbum(o: Options, album: seq<Asset>, goal: seq<Asset>)
    requires Admissible(o, album, goal)
    ensures forall i :: 0 <= i < |goal| ==> goal[i] in album && Checkable(o, goal[i].kind)
  {
  }

  /** Nothing else is ever selected. */
  lemma {:induction false} TapsMembers(o: Options, album: seq<Asset>, events: seq<Event>)
    requires forall i :: 0 <= i < |events| ==> events[i].Tap?
    ensures var r := Later(o, Screen([], album), events);
            r.album == album && forall i :: 0 <= i < |r.selected| ==>
              r.selected[i] in album && Checkable(o, r.selected[i].kind)
    decreases |events|
  {
    if events != [] {
      var front, last := events[..|events| - 1], events[|events| - 1];
      TapsMembers(o, album, front);
      var t := Later(o, Screen([], album), front);
      if Reacts(o, t, last.index) {
        TappedFrom(o, t.selected, album[last.index]);
      }
    }
  }

  lemma TappedFrom(o: Options, selected: seq<Asset>, a: Asset)
    ensures forall i :: 0 <= i < |Tapped(o, selected, a)| ==>
              Tapped(o, selected, a)[i] in selected || Tapped(o, selected, a)[i] == a
  {
    RemovedCount(selected, a.id, Image);
  }

  /** Among images and videos, taps on an album lead from the empty selection to exactly the
      admissible ones. */
  lemma ReachedExactly(o: Options, album: seq<Asset>, goal: seq<Asset>)
    requires Within(o, []) && Distinct(album) && NoOther(album)
    ensures Admissible(o, album, goal) <==>
            exists events: seq<Event> ::
              (forall i :: 0 <= i < |events| ==> events[i].Tap?) && Later(o, Screen([], album), events).selected == goal
  {
    if Admissible(o, album, goal) {
      TapsReach(o, album, goal);
      assert forall i :: 0 <= i < |goal| ==> goal[i] in album by { InAlbum(o, album, goal); }
      assert Later(o, Screen([], album), Taps(album, goal)).selected == goal;
    }
    forall events: seq<Event> | (forall i :: 0 <= i < |events| ==> events[i].Tap?) &&
        Later(o, Screen([], album), events).selected == goal
      ensures Admissible(o, album, goal)
    {
      RunKeeps(o, Screen([], album), events);
      TapsMembers(o, album, events);
      if o.mode == ImageOrVideo {
        RunOneKind(o, Screen([], album), events);
      }
    }
  }

  class Controller {
    var options: Options
    var models: seq<PhotoAsset>
    var selectedModels: seq<Asset>
    var willUpdate: set<nat>

    ghost predicate Valid()
      reads this, models
    {
      && SelectionOk(options, selectedModels) && Album(models)
      && forall i :: 0 <= i < |models| ==> CellOk(options, selectedModels, models[i])
    }

    /** configPickerOption and the first album. */
    constructor (o: Options, selections: seq<Asset>, photos: seq<Asset>)
      requires SelectionOk(Configured(o), selections)
      requires Distinct(photos)
      ensures Valid() && fresh(models) && options == Configured(o) && selectedModels == selections &&
              Assets(models) == photos
    {
      options := Configured(o);
      selectedModels := selections;
      models, willUpdate := [], {};
      new;
      FetchPhotoModels(photos);
      if |selectedModels| > 0 {
        SetCellState(-1, true);
      }
      forall i | 0 <= i < |models| ensures CellOk(options, selectedModels, models[i]) {
        CellSettled(options, selectedModels, Assets(models)[i], models[i].isSelected, true);
      }
    }

    /** fetchPhotoModels. */
    method FetchPhotoModels(photos: seq<Asset>)
      requires Distinct(photos)
      modifies this`models
      ensures fresh(models) && Album(models) && Assets(models) == photos
      ensures forall i :: 0 <= i < |models| ==> Unmarked(options, models[i])
    {
      models := [];
      var i := 0;
      while i < |photos|
        invariant 0 <= i <= |photos| && |models| == i && fresh(models)
        invariant forall j :: 0 <= j < i ==> models[j].asset == photos[j] && models[j].index == j
        invariant forall j :: 0 <= j < i ==> Unmarked(options, models[j])
      {
        var model := new PhotoAsset(photos[i], i, Checkable(options, photos[i].kind));
        models := models + [model];
        i := i + 1;
      }
    }

    /** setCellState; tapped is -1 where the source passes no index. */
    method SetCellState(tapped: int, update: bool)
      requires Album(models)
      modifies this`willUpdate, models
      ensures forall i :: 0 <= i < |models| ==>
                CellSet(options, selectedModels, update, models[i], old(models[i].isSelected), old(models[i].isEnable))
      ensures !update ==> forall i :: 0 <= i < |models| && models[i].isEnable != old(models[i].isEnable) ==>
              i in willUpdate || i == tapped
    {
      willUpdate := {};
      var i := 0;
      while i < |models|
        invariant 0 <= i <= |models|
        invariant forall j :: 0 <= j < i ==>
                    CellSet(options, selectedModels, update, models[j], old(models[j].isSelected),
                        old(models[j].isEnable))
        invariant forall j :: i <= j < |models| ==>
                  models[j].isSelected == old(models[j].isSelected) && models[j].isEnable == old(models[j].isEnable)
        invariant !update ==> forall j :: 0 <= j < i && models[j].isEnable != old(models[j].isEnable) ==>
                  j in willUpdate || j == tapped
      {
        ApartFrom(models, i);
        var reload := SetCell(models[i], options, selectedModels, tapped, update);
        if reload {
          willUpdate := willUpdate + {models[i].index};
        }
        i := i + 1;
      }
    }

    /** An album switch: fetchPhotoModels, then updateUI. */
    method ShowAlbum(photos: seq<Asset>)
      requires Valid() && Distinct(photos)
      modifies this`models, this`willUpdate
      ensures Valid() && fresh(models) && Assets(models) == photos
    {
      FetchPhotoModels(photos);
      SetCellState(-1, true);
      forall i | 0 <= i < |models| ensures CellOk(options, selectedModels, models[i]) {
        CellSettled(options, selectedModels, Assets(models)[i], models[i].isSelected, true);
      }
    }

    /** updateSelectedCell with the button's new state, which the cell has just flipped. */
    method UpdateSelectedCell(index: nat, button: bool) returns (shown: bool)
      requires Valid() && index < |models| && models[index].isEnable
      requires button == !models[index].isSelected
      modifies this`selectedModels, this`willUpdate, models
      ensures Valid() && shown == models[index].isSelected
      ensures selectedModels == Tapped(options, old(selectedModels), models[index].asset)
      ensures forall i :: 0 <= i < |models| && i != index && models[i].isEnable != old(models[i].isEnable) ==>
              i in willUpdate
      ensures var kind, before := models[index].asset.kind, old(selectedModels);
              button && !shown <==>
              button && ((kind == Image && Count(before, Image) == options.maxImage) ||
                         (kind == Video && Count(before, Video) == options.maxVideo))
    {
      var model := models[index];
      assert CellOk(options, selectedModels, model);
      if button {
        TapRefused(options, selectedModels, model.asset);
      }
      shown := button;
      if button && !HasRoom(options, selectedModels, model.asset.kind) {
        return false;
      }
      Select(index, button);
    }

    /** The selection after a tap that is not refused. */
    method Select(index: nat, button: bool)
      requires Valid() && index < |models| && models[index].isEnable
      requires button == !Contains(selectedModels, models[index].asset.id)
      requires button ==> HasRoom(options, selectedModels, models[index].asset.kind)
      modifies this`selectedModels, this`willUpdate, models
      ensures Valid() && models[index].isSelected == button
      ensures selectedModels == Tapped(options, old(selectedModels), models[index].asset)
      ensures forall i :: 0 <= i < |models| && i != index && models[i].isEnable != old(models[i].isEnable) ==>
                i in willUpdate
    {
      var asset := models[index].asset;
      ghost var before := selectedModels;
      TappedKeeps(options, selectedModels, asset);
      if button {
        selectedModels := selectedModels + [asset];
      } else {
        selectedModels := Removed(selectedModels, asset.id);
      }
      Mark(index, button, before);
    }

    /** The tapped cell takes its new mark, and all cells are set by the new selection. */
    method Mark(index: nat, shown: bool, ghost before: seq<Asset>)
      requires Album(models) && index < |models| && models[index].isEnable
      requires forall i :: 0 <= i < |models| ==> CellOk(options, before, models[i])
      requires selectedModels == Tapped(options, before, models[index].asset)
      requires shown == !Contains(before, models[index].asset.id)
      requires shown ==> HasRoom(options, before, models[index].asset.kind)
      modifies this`willUpdate, models
      ensures forall i :: 0 <= i < |models| ==> CellOk(options, selectedModels, models[i])
      ensures models[index].isSelected == shown
      ensures forall i :: 0 <= i < |models| && i != index && models[i].isEnable != old(models[i].isEnable) ==>
              i in willUpdate
    {
      var model := models[index];
      ApartFrom(models, index);
      model.isSelected := shown;
      SetCellState(index, false);
      forall i | 0 <= i < |models| ensures CellOk(options, selectedModels, models[i]) {
        if i == index {
          TappedCell(options, before, model.asset);
        } else {
          assert Assets(models)[i].id != Assets(models)[index].id;
          OtherCell(options, before, model.asset, models[i].asset);
        }
      }
    }

    ghost function Seen(): (s: Screen)
      reads this
    {
      Screen(selectedModels, Assets(models))
    }

    /** Any taps and album switches in any order: a tap on a cell without a check mark or
        under its cover does not reach the controller, every other one does what the rules
        say, and the cells tell the truth throughout. */
    method Session(events: seq<Event>)
      requires Valid() && EventsOk(events)
      modifies this`models, this`selectedModels, this`willUpdate, models
      ensures Valid() && Seen() == Later(options, old(Seen()), events)
      ensures options.mode == ImageOrVideo && OneKind(old(selectedModels)) && OnlyKnownKinds(old(Seen()), events) ==>
                OneKind(selectedModels)
    {
      var k := 0;
      ghost var start, home := Seen(), models;
      assert events[..0] == [];
      while k < |events|
        invariant 0 <= k <= |events| && Valid() && (models == home || fresh(models))
        invariant Seen() == Later(options, start, events[..k])
      {
        assert events[..k + 1][..k] == events[..k];
        var shown := Handle(events[k]);
        k := k + 1;
      }
      assert events[..k] == events;
      if options.mode == ImageOrVideo && OneKind(start.selected) && OnlyKnownKinds(start, events) {
        RunOneKind(options, start, events);
      }
    }

    method Handle(e: Event) returns (shown: bool)
      requires Valid() && (e.Show? ==> Distinct(e.photos))
      modifies this`models, this`selectedModels, this`willUpdate, models
      ensures Valid() && (models == old(models) || fresh(models)) && Seen() == Next(options, old(Seen()), e)
    {
      shown := false;
      match e {
        case Tap(i) =>
          if i < |models| {
            assert CellOk(options, selectedModels, models[i]);
            if models[i].isEnable && models[i].isEnableSelected {
              shown := UpdateSelectedCell(i, !models[i].isSelected);
            }
          }
        case Show(photos) => ShowAlbum(photos);
      }
    }
  }

  /** A cell as fetchPhotoModels makes it. */
  ghost predicate Unmarked(o: Options, item: PhotoAsset)
    reads item
  {
    !item.isSelected && item.isEnable && item.isEnableSelected == Checkable(o, item.asset.kind)
  }

  lemma ApartFrom(models: seq<PhotoAsset>, i: nat)
    requires i < |models| && forall j :: 0 <= j < |models| ==> models[j].index == j
    ensures forall j :: 0 <= j < |models| && j != i ==> models[j] != models[i]
  {
  }
}
