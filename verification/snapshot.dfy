/** Per-frame snapshots of what `Render` reads from the host: plugin settings, the
    entities with their `BaseIcon` HUD component, and the draw calls it issues. */
module Snapshot {
  import opened Wrappers
  import ViewState

  /** `EntityType`, reduced to the two values the passes test for. */
  datatype EntityKind = WorldItem | Monster | OtherKind

  /** `LeagueType`, reduced to the one value the passes test for. */
  datatype League = Heist | OtherLeague

  /** A `BaseIcon` as the passes see it: `Show()`, `Hidden()` and `HasIngameIcon` as read in
      this frame, whether its `Entity` reference is set, whether that entity has a `Render`
      component, and its label (`null` and `""` alike are empty). */
  datatype Icon = Icon(
    priority: int,
    show: bool,
    hasIngameIcon: bool,
    hidden: bool,
    hasEntity: bool,
    hasRender: bool,
    text: string)

  /** An entity; `icon` is `GetHudComponent<BaseIcon>()`, which may be `null`. When the
      icon's entity reference is set it refers to this entity. */
  datatype Entity = Entity(
    id: nat,
    kind: EntityKind,
    league: League,
    path: string,
    isValid: bool,
    icon: Option<Icon>)

  /** The `MapIconsSettings` toggles the passes read. */
  datatype Settings = Settings(
    enable: bool,
    drawMonsters: bool,
    drawOnlyOnLargeMap: bool,
    ignoreFullscreenPanels: bool,
    ignoreLargePanels: bool,
    drawNotValid: bool,
    drawReplacementsForGameIconsWhenOutOfRange: bool)

  /** The `EntityListWrapper` lists: `OnlyValidEntities` and `NotOnlyValidEntities`. */
  datatype EntityLists = EntityLists(onlyValid: seq<Entity>, all: seq<Entity>)

  /** What one `Render` call reads from the host: the in-game flag, the mode of the last
      tick, the visibility of each fullscreen and large panel, whether the player has
      `Positioned` and `Render` components, whether the map window exists, and the entity
      lists (`None` when the entity list wrapper is `null`). */
  datatype Frame = Frame(
    inGame: bool,
    mode: ViewState.Mode,
    fullscreenPanels: seq<bool>,
    largePanels: seq<bool>,
    playerPositioned: bool,
    playerRender: bool,
    mapWindow: bool,
    entities: Option<EntityLists>)

  /** The draw calls, with screen positions left opaque: the icon's main texture, the cyan
      circle over a hidden icon, and the label text. `id` names the entity drawn. */
  datatype DrawCommand = MainImage(id: nat) | Decoration(id: nat) | Label(id: nat, text: string)

  /** A `BaseIcon` together with the entity it belongs to. */
  datatype Candidate = Candidate(icon: Icon, entity: Entity)

  function Priority(c: Candidate): int {
    c.icon.priority
  }
}
