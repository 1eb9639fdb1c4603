/** `Render`: the per-frame gate, the pass over the valid entities' icons in priority
    order, and the optional pass over entities that are no longer valid. Screen positions
    come from an unseen projection and are left out; what remains is which icons are drawn,
    in which order, and which draw calls each one issues. */
module IconPasses {
  import opened Wrappers
  import opened ViewState
  import opened Snapshot
  import IconOrder
  import Text

  /** Entities under this path always get a replacement icon in the not-valid pass. */
  const DelveWallPath: string := "Metadata/Terrain/Leagues/Delve/Objects/DelveWall"

  /** The checks at the top of `Render`: the plugin is enabled, a game is running, the
      large map is shown if the settings ask for it, and no fullscreen or large panel covers
      the view unless the settings say to ignore such panels. */
  predicate RenderGate(s: Settings, inGame: bool, mode: Mode, fullscreenPanels: seq<bool>, largePanels: seq<bool>) {
    && s.enable
    && inGame
    && (s.drawOnlyOnLargeMap ==> mode == LargeMap)
    && (true in fullscreenPanels ==> s.ignoreFullscreenPanels)
    && (true in largePanels ==> s.ignoreLargePanels)
  }

  /** The host objects `Render` needs before drawing: the player's `Positioned` and
      `Render` components, the map window and the entity list wrapper. */
  predicate HostReady(f: Frame) {
    f.playerPositioned && f.playerRender && f.mapWindow && f.entities.Some?
  }

  /** Monsters are hidden when monster drawing is off. */
  predicate MonsterFiltered(s: Settings, e: Entity) {
    !s.drawMonsters && e.kind == Monster
  }

  /** The game already shows its own icon for the entity, and it is neither a monster nor
      a Heist entity (those always get the plugin's icon). */
  predicate NativeIconCovers(icon: Icon, e: Entity) {
    icon.hasIngameIcon && e.kind != Monster && e.league != Heist
  }

  /** The valid pass draws a candidate exactly when all of its checks pass. */
  predicate ValidDrawn(s: Settings, m: Mode, c: Candidate) {
    && c.icon.hasEntity
    && c.entity.kind != WorldItem
    && c.icon.show
    && !MonsterFiltered(s, c.entity)
    && !NativeIconCovers(c.icon, c.entity)
    && c.icon.hasRender
    && m != Unavailable
  }

  /** The not-valid pass's in-game-icon exclusion: it applies only when replacements for
      out-of-range game icons are off and the entity is not a Delve wall. */
  predicate ReplacementSuppressed(s: Settings, icon: Icon, e: Entity) {
    && NativeIconCovers(icon, e)
    && !s.drawReplacementsForGameIconsWhenOutOfRange
    && !Text.Contains(e.path, DelveWallPath)
  }

  /** The not-valid pass looks further at an entity that is not a world item, has an icon,
      is not valid and whose icon wants to be shown. */
  predicate NotValidCandidate(e: Entity) {
    e.kind != WorldItem && e.icon.Some? && !e.isValid && e.icon.value.show
  }

  /** Such an entity whose icon has no entity reference makes `icon.Entity.Type` throw,
      which ends `Render` for the frame. */
  predicate NotValidFaults(e: Entity) {
    NotValidCandidate(e) && !e.icon.value.hasEntity
  }

  /** The not-valid pass draws an entity exactly when all of its checks pass. */
  predicate NotValidDrawn(s: Settings, m: Mode, e: Entity) {
    && NotValidCandidate(e)
    && e.icon.value.hasEntity
    && !MonsterFiltered(s, e)
    && !ReplacementSuppressed(s, e.icon.value, e)
    && m != Unavailable
  }

  /** The draw calls for one icon: its main texture, then the cyan circle if the icon is
      hidden, then its label if it has text. */
  function Emit(c: Candidate): seq<DrawCommand> {
    var id := c.entity.id;
    [MainImage(id)]
    + (if c.icon.hidden then [Decoration(id)] else [])
    + (if c.icon.text != "" then [Label(id, c.icon.text)] else [])
  }

  /** What one drawn icon issues: exactly one main image, first; a decoration exactly when
      the icon is hidden; its label, last, exactly when it has text; every call names the
      icon's entity. */
  predicate IconCalls(c: Candidate, cmds: seq<DrawCommand>) {
    && |cmds| == 1 + (if c.icon.hidden then 1 else 0) + (if c.icon.text != "" then 1 else 0)
    && cmds[0] == MainImage(c.entity.id)
    && (forall k :: 0 <= k < |cmds| ==> cmds[k].id == c.entity.id)
    && (forall k :: 0 < k < |cmds| ==> !cmds[k].MainImage?)
    && (Decoration(c.entity.id) in cmds <==> c.icon.hidden)
    && (Label(c.entity.id, c.icon.text) in cmds <==> c.icon.text != "")
    && (forall k :: 0 <= k < |cmds| && cmds[k].Label? ==> k == |cmds| - 1 && cmds[k].text == c.icon.text)
  }

  /** `Emit` issues the calls of one icon. */
  lemma EmitShape(c: Candidate)
    ensures IconCalls(c, Emit(c))
  {
  }

  /** The description pins the calls down: any calls that match it are `Emit`'s. */
  lemma IconCallsDetermined(c: Candidate, cmds: seq<DrawCommand>)
    requires IconCalls(c, cmds)
    ensures cmds == Emit(c)
  {
    var id := c.entity.id;
    if c.icon.hidden && c.icon.text != "" {
      assert Label(id, c.icon.text) in cmds;
      assert !cmds[1].Label? && !cmds[1].MainImage? && cmds[1].id == id;
      assert cmds[2].Label?;
    } else if c.icon.hidden {
      assert !cmds[1].MainImage? && cmds[1].id == id;
    } else if c.icon.text != "" {
      assert Label(id, c.icon.text) in cmds;
    }
  }

  /** The entity ids of the main-image calls, in the order they are issued. */
  function MainImages(cmds: seq<DrawCommand>): seq<nat> {
    if |cmds| == 0 then []
    else
      var n := |cmds| - 1;
      MainImages(cmds[..n]) + (if cmds[n].MainImage? then [cmds[n].id] else [])
  }

  lemma {:induction false} MainImagesAppend(a: seq<DrawCommand>, b: seq<DrawCommand>)
    ensures MainImages(a + b) == MainImages(a) + MainImages(b)
  {
    if |b| > 0 {
      var n := |b| - 1;
      assert (a + b)[..|a| + n] == a + b[..n];
      MainImagesAppend(a, b[..n]);
    } else {
      assert a + b == a;
    }
  }

  /** A run of calls that starts with the only main image in it. */
  lemma {:induction false} MainImagesLeading(cmds: seq<DrawCommand>)
    requires |cmds| >= 1 && cmds[0].MainImage?
    requires forall k :: 0 < k < |cmds| ==> !cmds[k].MainImage?
    ensures MainImages(cmds) == [cmds[0].id]
  {
    if |cmds| > 1 {
      MainImagesLeading(cmds[..|cmds| - 1]);
    }
  }

  /** The entity ids of a list of candidates. */
  function Ids(cs: seq<Candidate>): seq<nat> {
    if |cs| == 0 then [] else Ids(cs[..|cs| - 1]) + [cs[|cs| - 1].entity.id]
  }

  /** The draw calls for a list of icons, one icon after the other, starting with the first
      icon's main image. */
  function EmitAll(cs: seq<Candidate>): (cmds: seq<DrawCommand>)
    ensures |cmds| >= |cs|
    ensures |cs| > 0 ==> cmds[0] == MainImage(cs[0].entity.id)
  {
    if |cs| == 0 then
      []
    else
      var n := |cs| - 1;
      assert n > 0 ==> cs[..n][0] == cs[0];
      EmitAll(cs[..n]) + Emit(cs[n])
  }

  /** Nothing but the icons' own calls: every call names one of the icons. */
  lemma {:induction false} EmitAllNamesIcons(cs: seq<Candidate>)
    ensures forall k :: 0 <= k < |EmitAll(cs)| ==> EmitAll(cs)[k].id in Ids(cs)
  {
    if |cs| > 0 {
      var n := |cs| - 1;
      var front := EmitAll(cs[..n]);
      var last := Emit(cs[n]);
      var all: seq<DrawCommand> := front + last;
      assert EmitAll(cs) == all;
      EmitAllNamesIcons(cs[..n]);
      EmitShape(cs[n]);
      forall k | 0 <= k < |all|
        ensures all[k].id in Ids(cs)
      {
        if k < |front| {
          assert all[k] == front[k];
        } else {
          assert all[k] == last[k - |front|];
        }
      }
    }
  }

  /** Exactly one main image per icon, in list order: the main-image calls name the icons'
      entities one by one. */
  lemma {:induction false} EmitAllMainImages(cs: seq<Candidate>)
    ensures MainImages(EmitAll(cs)) == Ids(cs)
  {
    if |cs| > 0 {
      var n := |cs| - 1;
      var front := EmitAll(cs[..n]);
      var last := Emit(cs[n]);
      assert EmitAll(cs) == front + last;
      EmitAllMainImages(cs[..n]);
      MainImagesAppend(front, last);
      EmitShape(cs[n]);
      MainImagesLeading(last);
    }
  }

  /** The candidates the valid pass draws, in the order it meets them. */
  function DrawnValid(s: Settings, m: Mode, cs: seq<Candidate>): seq<Candidate> {
    if |cs| == 0 then
      []
    else
      var n := |cs| - 1;
      DrawnValid(s, m, cs[..n]) + (if ValidDrawn(s, m, cs[n]) then [cs[n]] else [])
  }

  /** The valid pass draws a candidate exactly when it is in the list and passes every
      check. */
  lemma {:induction false} DrawnValidMembers(s: Settings, m: Mode, cs: seq<Candidate>)
    ensures forall c :: c in DrawnValid(s, m, cs) <==> c in cs && ValidDrawn(s, m, c)
  {
    if |cs| > 0 {
      var n := |cs| - 1;
      DrawnValidMembers(s, m, cs[..n]);
      assert cs == cs[..n] + [cs[n]];
    }
  }

  /** Filtering keeps the priority order. */
  lemma {:induction false} DrawnValidSorted(s: Settings, m: Mode, cs: seq<Candidate>)
    requires IconOrder.Sorted(cs)
    ensures IconOrder.Sorted(DrawnValid(s, m, cs))
  {
    if |cs| > 0 {
      var n := |cs| - 1;
      var prev := DrawnValid(s, m, cs[..n]);
      DrawnValidSorted(s, m, cs[..n]);
      if ValidDrawn(s, m, cs[n]) {
        DrawnValidMembers(s, m, cs[..n]);
        forall c | c in prev
          ensures Priority(c) <= Priority(cs[n])
        {
          var k :| 0 <= k < n && cs[..n][k] == c;
          assert cs[k] == c;
        }
      }
    }
  }

  /** The entities the not-valid pass draws, in list order, as icon candidates. */
  function DrawnNotValid(s: Settings, m: Mode, es: seq<Entity>): seq<Candidate> {
    if |es| == 0 then
      []
    else
      var n := |es| - 1;
      DrawnNotValid(s, m, es[..n])
      + (if NotValidDrawn(s, m, es[n]) then [Candidate(es[n].icon.value, es[n])] else [])
  }

  /** The not-valid pass draws an entity exactly when it is in the list and passes every
      check, and it draws the entity's own icon. */
  lemma {:induction false} DrawnNotValidMembers(s: Settings, m: Mode, es: seq<Entity>)
    ensures forall c :: c in DrawnNotValid(s, m, es) <==>
              c.entity in es && NotValidDrawn(s, m, c.entity) && c.entity.icon == Some(c.icon)
  {
    if |es| > 0 {
      var n := |es| - 1;
      DrawnNotValidMembers(s, m, es[..n]);
      assert es == es[..n] + [es[n]];
    }
  }

  /** The draw calls of a list grow by those of its new last icon. */
  lemma EmitAllAppend(cs: seq<Candidate>, c: Candidate)
    ensures EmitAll(cs + [c]) == EmitAll(cs) + Emit(c)
  {
    assert (cs + [c])[..|cs|] == cs;
  }

  /** One more candidate adds its calls at the end, if it is drawn. */
  lemma ValidStep(s: Settings, m: Mode, cs: seq<Candidate>, i: nat)
    requires i < |cs|
    ensures EmitAll(DrawnValid(s, m, cs[..i + 1])) ==
            EmitAll(DrawnValid(s, m, cs[..i])) + (if ValidDrawn(s, m, cs[i]) then Emit(cs[i]) else [])
  {
    assert cs[..i + 1][..i] == cs[..i];
    var prev := DrawnValid(s, m, cs[..i]);
    if ValidDrawn(s, m, cs[i]) {
      EmitAllAppend(prev, cs[i]);
    } else {
      assert DrawnValid(s, m, cs[..i + 1]) == prev + [];
      assert prev + [] == prev;
    }
  }

  /** One more entity adds its calls at the end, if it is drawn. */
  lemma NotValidStep(s: Settings, m: Mode, es: seq<Entity>, i: nat)
    requires i < |es|
    ensures NotValidDrawn(s, m, es[i]) ==>
              EmitAll(DrawnNotValid(s, m, es[..i + 1])) ==
              EmitAll(DrawnNotValid(s, m, es[..i])) + Emit(Candidate(es[i].icon.value, es[i]))
    ensures !NotValidDrawn(s, m, es[i]) ==>
              EmitAll(DrawnNotValid(s, m, es[..i + 1])) == EmitAll(DrawnNotValid(s, m, es[..i]))
  {
    assert es[..i + 1][..i] == es[..i];
    var prev := DrawnNotValid(s, m, es[..i]);
    if NotValidDrawn(s, m, es[i]) {
      EmitAllAppend(prev, Candidate(es[i].icon.value, es[i]));
    } else {
      assert DrawnNotValid(s, m, es[..i + 1]) == prev + [];
      assert prev + [] == prev;
    }
  }

  /** The index of the first entity that makes the not-valid pass throw, or the length of
      the list if none does. */
  function FirstFault(es: seq<Entity>): (k: nat)
    ensures k <= |es|
    ensures forall j :: 0 <= j < k ==> !NotValidFaults(es[j])
    ensures k < |es| ==> NotValidFaults(es[k])
  {
    if |es| == 0 || NotValidFaults(es[0]) then 0 else 1 + FirstFault(es[1..])
  }

  /** The calls `Render` issues for one icon that passed its checks. */
  method DrawIcon(c: Candidate) returns (calls: seq<DrawCommand>)
    ensures IconCalls(c, calls)
  {
    var id := c.entity.id;
    calls := [MainImage(id)];
    if c.icon.hidden {
      calls := calls + [Decoration(id)];
    }
    if c.icon.text != "" {
      calls := calls + [Label(id, c.icon.text)];
    }
  }

  /** The first loop of `Render`: for each candidate in order, skip it at the first check
      that fails, otherwise issue its draw calls. */
  method ValidPass(s: Settings, m: Mode, icons: seq<Candidate>) returns (cmds: seq<DrawCommand>)
    ensures cmds == EmitAll(DrawnValid(s, m, icons))
  {
    cmds := [];
    for i := 0 to |icons|
      invariant cmds == EmitAll(DrawnValid(s, m, icons[..i]))
    {
      var c := icons[i];
      ValidStep(s, m, icons, i);
      if !c.icon.hasEntity { continue; }
      if c.entity.kind == WorldItem { continue; }
      if !c.icon.show { continue; }
      if !s.drawMonsters && c.entity.kind == Monster { continue; }
      if c.icon.hasIngameIcon && c.entity.kind != Monster && c.entity.league != Heist { continue; }
      if !c.icon.hasRender { continue; }
      // The position is projected for either map; with no map the icon is skipped.
      if m == Unavailable { continue; }
      var calls := DrawIcon(c);
      IconCallsDetermined(c, calls);
      cmds := cmds + calls;
    }
    assert icons[..|icons|] == icons;
  }

  /** The second loop of `Render`, over every entity in list order. An icon without an
      entity reference throws at `icon.Entity.Type`; the calls issued before stay issued. */
  method NotValidPass(s: Settings, m: Mode, es: seq<Entity>) returns (cmds: seq<DrawCommand>)
    ensures cmds == EmitAll(DrawnNotValid(s, m, es[..FirstFault(es)]))
  {
    cmds := [];
    for i := 0 to |es|
      invariant i <= FirstFault(es)
      invariant cmds == EmitAll(DrawnNotValid(s, m, es[..i]))
    {
      var e := es[i];
      NotValidStep(s, m, es, i);
      assert NotValidFaults(e) ==> FirstFault(es) == i;
      assert !NotValidFaults(e) ==> i < FirstFault(es);
      if e.kind == WorldItem { continue; }
      if e.icon.Some? && !e.isValid && e.icon.value.show {
        var icon := e.icon.value;
        if !icon.hasEntity {
          assert es[..FirstFault(es)] == es[..i];
          return;
        }
        if !s.drawMonsters && e.kind == Monster { continue; }
        if ReplacementSuppressed(s, icon, e) { continue; }
        if m == Unavailable { continue; }
        var calls := DrawIcon(Candidate(icon, e));
        IconCallsDetermined(Candidate(icon, e), calls);
        cmds := cmds + calls;
      }
    }
    assert es[..|es|] == es;
  }

  /** What the valid pass draws in a frame that passed the gate. */
  function ValidOutput(s: Settings, f: Frame): seq<DrawCommand>
    requires f.entities.Some?
  {
    var icons := IconOrder.SortByPriority(IconOrder.Candidates(f.entities.value.onlyValid));
    EmitAll(DrawnValid(s, f.mode, icons))
  }

  /** What the not-valid pass draws in a frame that passed the gate. */
  function NotValidOutput(s: Settings, f: Frame): seq<DrawCommand>
    requires f.entities.Some?
  {
    var all := f.entities.value.all;
    if s.drawNotValid then EmitAll(DrawnNotValid(s, f.mode, all[..FirstFault(all)])) else []
  }

  /** With no map visible neither pass selects anything. */
  lemma UnavailableSelectsNothing(s: Settings, cs: seq<Candidate>, es: seq<Entity>)
    ensures DrawnValid(s, Unavailable, cs) == []
    ensures DrawnNotValid(s, Unavailable, es) == []
  {
    DrawnValidMembers(s, Unavailable, cs);
    DrawnNotValidMembers(s, Unavailable, es);
  }

  /** An entity of the valid list that has an icon is drawn by the valid pass exactly when
      the pass's checks accept it. */
  lemma ValidPassSelects(s: Settings, m: Mode, es: seq<Entity>, e: Entity)
    requires e in es && e.icon.Some?
    ensures var drawn := DrawnValid(s, m, IconOrder.SortByPriority(IconOrder.Candidates(es)));
            Candidate(e.icon.value, e) in drawn <==> ValidDrawn(s, m, Candidate(e.icon.value, e))
  {
    IconOrder.CandidateOrder(es);
    var sorted := IconOrder.SortByPriority(IconOrder.Candidates(es));
    DrawnValidMembers(s, m, sorted);
    assert multiset(es)[e] > 0;
    assert Candidate(e.icon.value, e) in multiset(sorted);
  }

  /** The valid pass issues its main images in ascending icon priority, one per drawn icon. */
  lemma ValidPassOrder(s: Settings, m: Mode, es: seq<Entity>)
    ensures var drawn := DrawnValid(s, m, IconOrder.SortByPriority(IconOrder.Candidates(es)));
            && IconOrder.Sorted(drawn)
            && MainImages(EmitAll(drawn)) == Ids(drawn)
  {
    var sorted := IconOrder.SortByPriority(IconOrder.Candidates(es));
    IconOrder.CandidateOrder(es);
    DrawnValidSorted(s, m, sorted);
    EmitAllMainImages(DrawnValid(s, m, sorted));
  }

  /** The not-valid pass's in-game-icon exclusion is narrower than the valid pass's: what it
      excludes the valid rule excludes too, so a not-valid entity the valid rules would draw
      is drawn by the not-valid pass. */
  lemma NotValidRuleIsNarrower(s: Settings, m: Mode, icon: Icon, e: Entity)
    ensures ReplacementSuppressed(s, icon, e) ==> NativeIconCovers(icon, e)
    ensures e.icon == Some(icon) && !e.isValid && ValidDrawn(s, m, Candidate(icon, e)) ==> NotValidDrawn(s, m, e)
  {
  }

  /** `Render`: nothing when the gate is closed or a host object is missing; otherwise the
      valid pass followed, if enabled, by the not-valid pass. */
  method Render(s: Settings, f: Frame) returns (cmds: seq<DrawCommand>)
    ensures !RenderGate(s, f.inGame, f.mode, f.fullscreenPanels, f.largePanels) ==> cmds == []
    ensures !HostReady(f) ==> cmds == []
    ensures f.mode == Unavailable ==> cmds == []
    ensures RenderGate(s, f.inGame, f.mode, f.fullscreenPanels, f.largePanels) && HostReady(f) ==>
              cmds == ValidOutput(s, f) + NotValidOutput(s, f)
  {
    if !s.enable || !f.inGame || (s.drawOnlyOnLargeMap && f.mode != LargeMap) {
      return [];
    }
    if (!s.ignoreFullscreenPanels && true in f.fullscreenPanels)
       || (!s.ignoreLargePanels && true in f.largePanels) {
      return [];
    }
    if !f.playerPositioned || !f.playerRender || !f.mapWindow || f.entities.None? {
      return [];
    }
    var lists := f.entities.value;
    var icons := IconOrder.SortByPriority(IconOrder.Candidates(lists.onlyValid));
    cmds := ValidPass(s, f.mode, icons);
    if s.drawNotValid {
      var more := NotValidPass(s, f.mode, lists.all);
      cmds := cmds + more;
    }
    if f.mode == Unavailable {
      UnavailableSelectsNothing(s, icons, lists.all[..FirstFault(lists.all)]);
    }
  }
}
