/** The audit scope as a bit mask over 64-bit words. Actions are their indices in the
    declaration order, `count` of them. */
module Audit {
  import opened Text

  const DEFAULT_ENABLED := true

  type Mask = seq<bv64>

  /** Ceiling division by the word size: enough words, and none too many. */
  function MaskWords(count: nat): (words: nat)
    ensures count <= 64 * words < count + 64
  {
    (count + 63) / 64
  }

  // ---- one bit --------------------------------------------------------------

  /** Amounts a 64-bit word may be shifted by. */
  type Shift = b: bv64 | b < 64

  lemma NextShift(x: bv64)
    requires x as int < 63
    ensures (x + 1) as int == x as int + 1 && x + 1 < 64
  {
  }

  /** A bit number as a shift amount. */
  function BitIndex(n: nat): (b: Shift)
    requires n < 64
    ensures b as int == n
  {
    if n == 0 then 0
    else
      NextShift(BitIndex(n - 1));
      BitIndex(n - 1) + 1
  }

  lemma BitIndexInjective(m: nat, n: nat)
    requires m < 64 && n < 64
    ensures BitIndex(m) == BitIndex(n) <==> m == n
  {
  }

  function WordWithBit(word: bv64, bit: Shift): bv64 { word | (1 << bit) }

  predicate WordHasBit(word: bv64, bit: Shift) { (word & (1 << bit)) != 0 }

  lemma OrOfShifts(w: bv64, b: bv64, c: bv64)
    requires b < 64 && c < 64
    ensures ((w | (1 << b)) & (1 << c)) != 0 <==> b == c || (w & (1 << c)) != 0
  {
  }

  lemma OrSetsOneBit(word: bv64, b: Shift, c: Shift)
    ensures WordHasBit(WordWithBit(word, b), c) <==> b == c || WordHasBit(word, c)
  {
    OrOfShifts(word, b, c);
  }

  lemma ZeroHasNoBit(b: Shift)
    ensures !WordHasBit(0, b)
  {
  }

  // ---- masks -------------------------------------------------------------------

  predicate MaskContains(mask: Mask, action: nat)
    requires action / 64 < |mask|
  {
    WordHasBit(mask[action / 64], BitIndex(action % 64))
  }

  function WithBit(mask: Mask, action: nat): Mask
    requires action / 64 < |mask|
  {
    mask[action / 64 := WordWithBit(mask[action / 64], BitIndex(action % 64))]
  }

  /** Setting one action never changes the answer for another. */
  lemma WithBitChangesOneAction(mask: Mask, action: nat, other: nat)
    requires action / 64 < |mask| && other / 64 < |mask|
    ensures MaskContains(WithBit(mask, action), other) <==> action == other || MaskContains(mask, other)
  {
    if action / 64 == other / 64 {
      OrSetsOneBit(mask[action / 64], BitIndex(action % 64), BitIndex(other % 64));
      BitIndexInjective(action % 64, other % 64);
    }
  }

  predicate Actions(count: nat, actions: seq<nat>) { forall i :: 0 <= i < |actions| ==> actions[i] < count }

  lemma WordInBounds(count: nat, action: nat)
    requires action < count
    ensures action / 64 < MaskWords(count)
  {
  }

  /** The mask a fold over the actions builds, as a value. */
  function MaskOf(count: nat, actions: seq<nat>): (mask: Mask)
    requires Actions(count, actions)
    ensures |mask| == MaskWords(count)
  {
    if actions == [] then seq(MaskWords(count), _ => 0 as bv64)
    else
      var last := actions[|actions| - 1];
      WordInBounds(count, last);
      WithBit(MaskOf(count, actions[..|actions| - 1]), last)
  }

  /** A mask contains exactly the actions it was built from. */
  lemma {:induction false} MaskIsSet(count: nat, actions: seq<nat>, action: nat)
    requires Actions(count, actions) && action < count
    ensures action / 64 < |MaskOf(count, actions)|
    ensures MaskContains(MaskOf(count, actions), action) <==> action in actions
  {
    WordInBounds(count, action);
    if actions != [] {
      var n := |actions| - 1;
      MaskIsSet(count, actions[..n], action);
      WordInBounds(count, actions[n]);
      WithBitChangesOneAction(MaskOf(count, actions[..n]), actions[n], action);
    } else {
      ZeroHasNoBit(BitIndex(action % 64));
    }
  }

  method SetMaskBit(mask: array<bv64>, action: nat)
    requires action / 64 < mask.Length
    modifies mask
    ensures mask[..] == WithBit(old(mask[..]), action)
  {
    var word, bit := action / 64, action % 64;
    mask[word] := WordWithBit(mask[word], BitIndex(bit));
  }

  /** The fold of `parse_action_mask_for_runtime`: every word access is in bounds and the
      mask answers as the list does. */
  method FoldActions(count: nat, actions: seq<nat>) returns (mask: Mask)
    requires Actions(count, actions)
    ensures mask == MaskOf(count, actions)
    ensures forall a :: 0 <= a < count ==> a / 64 < |mask| && (MaskContains(mask, a) <==> a in actions)
  {
    var words := new bv64[MaskWords(count)](_ => 0);
    assert words[..] == MaskOf(count, []);
    for i := 0 to |actions|
      invariant words[..] == MaskOf(count, actions[..i])
    {
      assert actions[..i + 1][..i] == actions[..i];
      WordInBounds(count, actions[i]);
      SetMaskBit(words, actions[i]);
    }
    assert actions[..|actions|] == actions;
    mask := words[..];
    forall a | 0 <= a < count ensures a / 64 < |mask| && (MaskContains(mask, a) <==> a in actions) {
      MaskIsSet(count, actions, a);
    }
  }

  function AllActions(count: nat): seq<nat> { seq(count, i => i) }

  method AllActionsMask(count: nat) returns (mask: Mask)
    ensures mask == MaskOf(count, AllActions(count))
    ensures forall a :: 0 <= a < count ==> a / 64 < |mask| && MaskContains(mask, a)
  {
    forall a | 0 <= a < count ensures a in AllActions(count) {
      assert AllActions(count)[a] == a;
    }
    mask := FoldActions(count, AllActions(count));
  }

  // ---- settings ----------------------------------------------------------------

  datatype Settings = Settings(enabled: bool, actionMask: Mask)

  /** The action table and the two value parsers of the configuration library. */
  datatype Parsers = Parsers(count: nat, parseBool: string -> Option<bool>, actions: string -> Option<seq<nat>>) {
    ghost predicate Valid() {
      forall raw :: actions(raw).Some? ==> Actions(count, actions(raw).value)
    }
  }

  /** The configured list, or every action when it is absent or unreadable. */
  function RecordedActions(p: Parsers, raw: Option<string>): seq<nat> {
    if raw.Some? && p.actions(raw.value).Some? then p.actions(raw.value).value else AllActions(p.count)
  }

  function EnabledFlag(p: Parsers, raw: Option<string>): bool {
    if raw.Some? && p.parseBool(raw.value).Some? then p.parseBool(raw.value).value else DEFAULT_ENABLED
  }

  ghost function FromRawValues(p: Parsers, enabledRaw: Option<string>, actionsRaw: Option<string>): Settings
    requires p.Valid()
  {
    Settings(EnabledFlag(p, enabledRaw), MaskOf(p.count, RecordedActions(p, actionsRaw)))
  }

  method BuildSettings(p: Parsers, enabledRaw: Option<string>, actionsRaw: Option<string>) returns (s: Settings)
    requires p.Valid()
    ensures s == FromRawValues(p, enabledRaw, actionsRaw)
  {
    var enabled := EnabledFlag(p, enabledRaw);
    var mask: Mask;
    if actionsRaw.None? {
      mask := AllActionsMask(p.count);
    } else {
      match p.actions(actionsRaw.value) {
        case Some(actions) => mask := FoldActions(p.count, actions);
        case None => mask := AllActionsMask(p.count);
      }
    }
    s := Settings(enabled, mask);
  }

  predicate ShouldRecord(s: Settings, action: nat)
    requires action / 64 < |s.actionMask|
  {
    s.enabled && MaskContains(s.actionMask, action)
  }

  /** The mask test answers as the plain rule: recording is on, and the action is listed
      or the list is absent or unreadable. */
  lemma ShouldRecordMeaning(p: Parsers, enabledRaw: Option<string>, actionsRaw: Option<string>, action: nat)
    requires p.Valid() && action < p.count
    ensures action / 64 < |FromRawValues(p, enabledRaw, actionsRaw).actionMask|
    ensures ShouldRecord(FromRawValues(p, enabledRaw, actionsRaw), action) <==>
              && (enabledRaw.None? || p.parseBool(enabledRaw.value) != Some(false))
              && (actionsRaw.None? || p.actions(actionsRaw.value).None? || action in p.actions(actionsRaw.value).value)
  {
    MaskIsSet(p.count, RecordedActions(p, actionsRaw), action);
    assert AllActions(p.count)[action] == action;
  }
}
