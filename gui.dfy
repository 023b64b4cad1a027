/** Mode-tree editing and the editable render settings of src/gui.rs. A
    mode tree node holds the selected combo index, the settings of the
    selected mode and, for a tiling mode, the tree of the mode used inside
    each tile. When the selection changes, the node's settings and sub-tree
    are replaced by the defaults of the newly selected mode. */
module Gui {
  import opened Wrappers
  import Raytracer

  /** `GUIModeSettings` (src/gui.rs:110-131). */
  datatype GuiModeSettings =
    | PixelRandom
    | Line(reverseOrderHorizontal: bool, randomOrderVertical: bool, transparent: bool)
    | Stripe(randomOrderHorizontal: bool, reverseOrderVertical: bool, transparent: bool)
    | Tile(tileWidth: nat, tileHeight: nat, dimensionOrder: nat, horizontalOrder: nat,
           verticalOrder: nat, transparent: bool)

  /** `mode_settings_to_index` (src/gui.rs:368-375): the combo index of a
      mode; each mode has its own. */
  function ModeSettingsToIndex(s: GuiModeSettings): (i: nat)
    ensures i <= 3
    ensures (i == 0 <==> s.PixelRandom?) && (i == 1 <==> s.Line?)
    ensures (i == 2 <==> s.Stripe?) && (i == 3 <==> s.Tile?)
  {
    match s
    case PixelRandom => 0
    case Line(_, _, _) => 1
    case Stripe(_, _, _) => 2
    case Tile(_, _, _, _, _, _) => 3
  }

  /** `index_to_mode_settings` (src/gui.rs:377-406): the default settings of
      the mode at a combo index; an index past the last mode gives
      PixelRandom. The result's index is the index given, or 0 past the
      last mode. */
  function IndexToModeSettings(index: nat): (s: GuiModeSettings)
    ensures ModeSettingsToIndex(s) == if index <= 3 then index else 0
  {
    match index
    case 1 => Line(false, false, false)
    case 2 => Stripe(false, false, false)
    case 3 => Tile(10, 10, 0, 0, 0, false)
    case _ => PixelRandom
  }

  /** The defaults a newly selected mode starts from: no flag set, and
      10 x 10 tiles in line-first, forward order. */
  lemma NewModeDefaults(index: nat)
    ensures IndexToModeSettings(index).Line? ==> IndexToModeSettings(index) == Line(false, false, false)
    ensures IndexToModeSettings(index).Stripe? ==> IndexToModeSettings(index) == Stripe(false, false, false)
    ensures IndexToModeSettings(index).Tile? ==> IndexToModeSettings(index) == Tile(10, 10, 0, 0, 0, false)
  {
  }

  /** Every mode's index maps back to that mode's defaults. */
  lemma IndexOfDefaults(s: GuiModeSettings)
    ensures IndexToModeSettings(ModeSettingsToIndex(s)).PixelRandom? <==> s.PixelRandom?
    ensures IndexToModeSettings(ModeSettingsToIndex(s)).Line? <==> s.Line?
    ensures IndexToModeSettings(ModeSettingsToIndex(s)).Stripe? <==> s.Stripe?
    ensures IndexToModeSettings(ModeSettingsToIndex(s)).Tile? <==> s.Tile?
  {
  }

  /** Whether `update_mode_tree` replaces a node's settings and sub-tree. */
  predicate NeedsReset(selection: nat, settings: GuiModeSettings) {
    selection != ModeSettingsToIndex(settings)
  }

  /** The settings `update_mode_tree` leaves (src/gui.rs:351-359): kept when
      they already match the selection, the selected mode's defaults
      otherwise. */
  function UpdatedSettings(selection: nat, settings: GuiModeSettings): (r: GuiModeSettings)
    ensures !NeedsReset(selection, settings) ==> r == settings
    ensures selection <= 3 ==> ModeSettingsToIndex(r) == selection
    ensures selection > 3 ==> r == PixelRandom
  {
    if NeedsReset(selection, settings) then IndexToModeSettings(selection) else settings
  }

  /** Updating twice is updating once: after one update the settings match
      any selection up to 3, and past 3 a second reset writes the same
      PixelRandom defaults again. */
  lemma UpdateIdempotent(selection: nat, settings: GuiModeSettings)
    ensures var once := UpdatedSettings(selection, settings);
      UpdatedSettings(selection, once) == once
      && (NeedsReset(selection, once) <==> selection > 3)
      && (NeedsReset(selection, once) ==> IndexToModeSettings(selection) == once)
  {
  }

  /** The editor's lower bound for tile sizes, samples per pixel and bounces
      (src/gui.rs:208-213, 299-304): the larger of the value and 1. */
  function AtLeastOne(v: int): (r: int)
    ensures r >= 1 && r >= v
    ensures r == v || r == 1
  {
    if v < 1 then 1 else v
  }

  /** `GUIModeTree` (src/gui.rs:103-108). */
  class GuiModeTree {
    var selection: nat
    var settings: GuiModeSettings
    var subTree: Option<GuiModeTree>

    /** The PixelRandom leaf the GUI starts trees from (src/gui.rs:70-74,
        411-415). */
    constructor Leaf()
      ensures selection == 0 && settings == PixelRandom && subTree == None
    {
      selection := 0;
      settings := PixelRandom;
      subTree := None;
    }

    /** A node's sub-tree is present exactly when its mode tiles. */
    predicate SubTreeMatches()
      reads this
    {
      subTree.Some? <==> settings.Tile?
    }

    /** `GUI::update_mode_tree` (src/gui.rs:351-359), in place. The
        selection is kept; settings that already match it are kept with
        their sub-tree; otherwise both are replaced by the selected mode's
        defaults. Afterwards a second call would either change nothing or
        write the very values already there. */
    method UpdateModeTree()
      modifies this
      ensures selection == old(selection)
      ensures settings == UpdatedSettings(old(selection), old(settings))
      ensures !NeedsReset(old(selection), old(settings)) ==> subTree == old(subTree)
      ensures NeedsReset(old(selection), old(settings)) ==>
        (subTree.Some? <==> selection == 3)
        && (subTree.Some? ==>
              (fresh(subTree.value) && subTree.value.selection == 0
               && subTree.value.settings == PixelRandom && subTree.value.subTree == None))
      ensures NeedsReset(old(selection), old(settings)) || old(SubTreeMatches()) ==> SubTreeMatches()
      ensures NeedsReset(selection, settings) ==> selection > 3 && settings == PixelRandom && subTree == None
    {
      if selection != ModeSettingsToIndex(settings) {
        var newSettings := IndexToModeSettings(selection);
        var newSubTree := IndexToSubTree(selection);
        settings := newSettings;
        subTree := newSubTree;
      }
    }

    /** The tile size inputs of the settings editor (src/gui.rs:290-306):
        for a tiling node, the entered width and height kept at least 1. */
    method ApplyTileSizeInputs(widthInput: int, heightInput: int)
      modifies this
      ensures old(settings).Tile? ==>
        settings == old(settings).(tileWidth := AtLeastOne(widthInput), tileHeight := AtLeastOne(heightInput))
      ensures !old(settings).Tile? ==> settings == old(settings)
      ensures settings.Tile? ==> settings.tileWidth >= 1 && settings.tileHeight >= 1
      ensures selection == old(selection) && subTree == old(subTree)
    {
      if settings.Tile? {
        var w := AtLeastOne(widthInput);
        var h := AtLeastOne(heightInput);
        settings := settings.(tileWidth := w, tileHeight := h);
      }
    }
  }

  /** `index_to_sub_tree` (src/gui.rs:408-419): a fresh PixelRandom leaf for
      the tiling index 3, nothing for every other index. */
  method IndexToSubTree(index: nat) returns (t: Option<GuiModeTree>)
    ensures t.Some? <==> index == 3
    ensures t.Some? ==>
      (fresh(t.value) && t.value.selection == 0 && t.value.settings == PixelRandom
       && t.value.subTree == None)
  {
    if index == 3 {
      var leaf := new GuiModeTree.Leaf();
      return Some(leaf);
    }
    return None;
  }

  /** `GUIState` (src/gui.rs:16-24). */
  class GuiState {
    var raytracerState: Raytracer.RaytracerState
    var imagePath: string
    var selected: nat
    var samplesPerPixel: nat
    var maxBounces: nat
    var modeTree: GuiModeTree

    /** `GUIState::default` (src/gui.rs:68-87). */
    constructor Default()
      ensures raytracerState == Raytracer.Created && imagePath == "" && selected == 0
      ensures samplesPerPixel == 100 && maxBounces == 10
      ensures fresh(modeTree) && modeTree.selection == 0 && modeTree.settings == PixelRandom
      ensures modeTree.subTree == None
    {
      raytracerState := Raytracer.Created;
      imagePath := "";
      selected := 0;
      samplesPerPixel := 100;
      maxBounces := 10;
      modeTree := new GuiModeTree.Leaf();
    }

    /** The render settings editor (src/gui.rs:200-216): the entered
        samples per pixel and bounces, kept at least 1. */
    method ApplyRenderInputs(samplesInput: int, bouncesInput: int)
      modifies this
      ensures samplesPerPixel == AtLeastOne(samplesInput) && maxBounces == AtLeastOne(bouncesInput)
      ensures samplesPerPixel >= 1 && maxBounces >= 1
      ensures raytracerState == old(raytracerState) && imagePath == old(imagePath)
      ensures selected == old(selected) && modeTree == old(modeTree)
    {
      samplesPerPixel := AtLeastOne(samplesInput);
      maxBounces := AtLeastOne(bouncesInput);
    }
  }
}
