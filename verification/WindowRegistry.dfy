/** The registry as the worker runs it: one object whose entry map and three counters every
    transition updates in place. Each mutator is tied to the pure transition of RegistryModel. */
module WindowRegistry {
  import opened RegistryModel
  import opened Sequences

  /** What an update makes of an entry, and whether it has to be placed anew. */
  method MergeUpdate(prior: Entry, generation: nat, role: string, geometry: Geometry, zOrder: ZOrder)
    returns (e: Entry, placed: bool)
    ensures var g := if HasGeometry(geometry) then geometry else prior.geometry;
            var resized := g.width != prior.geometry.width || g.height != prior.geometry.height;
            && e == prior.(generation := generation, role := if role == "" then prior.role else role, geometry := g,
                           extentAuthoritative := prior.extentAuthoritative || resized,
                           lastZOrder := if zOrder == KeepZ then prior.lastZOrder else zOrder)
            && (placed <==> g.x != prior.geometry.x || g.y != prior.geometry.y || resized || zOrder != KeepZ)
  {
    var was := prior.geometry;
    var hasGeometry := geometry.width > 0 && geometry.height > 0;
    var effective := if hasGeometry then geometry else was;
    var posChanged := hasGeometry && (effective.x != was.x || effective.y != was.y);
    var sizeChanged := hasGeometry && (effective.width != was.width || effective.height != was.height);
    e := prior.(generation := generation,
                role := if role != "" then role else prior.role,
                geometry := effective,
                extentAuthoritative := if sizeChanged then true else prior.extentAuthoritative,
                lastZOrder := if zOrder != KeepZ then zOrder else prior.lastZOrder);
    placed := posChanged || sizeChanged || zOrder != KeepZ;
  }

  class WindowRegistry {
    var entries: map<nat, Entry>
    var nextPlaceholderId: nat
    var nextEpoch: nat
    var nextHostApplySeq: nat

    ghost function Value(): Registry
      reads this
    {
      Registry(entries, nextPlaceholderId, nextEpoch, nextHostApplySeq)
    }

    constructor ()
      ensures Value() == EMPTY_REGISTRY
    {
      entries := map[];
      nextPlaceholderId, nextEpoch, nextHostApplySeq := 0, 0, 0;
    }

    method StampGeometryPlacement(eff: Effect, e: Entry) returns (stamped: Effect)
      modifies this`nextHostApplySeq
      ensures nextHostApplySeq == old(nextHostApplySeq) + 1
      ensures stamped == Stamped(eff, e, nextHostApplySeq)
    {
      nextHostApplySeq := nextHostApplySeq + 1;
      stamped := eff.(geometry := e.geometry);
      stamped := stamped.(hostApplySeq := nextHostApplySeq);
      stamped := stamped.(applySize := e.extentAuthoritative);
    }

    method BindSurface(xid: nat, surface: nat) returns (eff: Effect)
      modifies this
      ensures (Value(), eff) == RegistryModel.BindSurface(old(Value()), xid, surface)
    {
      eff := NO_EFFECT;
      if xid == 0 {
        return;
      }
      eff := eff.(applied := true, xid := xid, surface := surface);
      if xid !in entries {
        nextEpoch := nextEpoch + 1;
        var e := BLANK_ENTRY.(xid := xid, surface := surface, representation := Surface, epoch := nextEpoch);
        entries := entries[xid := e];
        return;
      }
      var e := entries[xid];
      if e.representation == Placeholder {
        eff := eff.(kind := PromotePlaceholder, placeholderId := e.placeholderId);
        nextEpoch := nextEpoch + 1;
        e := e.(surface := surface, representation := Surface, placeholderId := 0, epoch := nextEpoch);
        entries := entries[xid := e];
        eff := StampGeometryPlacement(eff, e);
        return;
      }
      nextEpoch := nextEpoch + 1;
      e := e.(surface := surface, representation := Surface, epoch := nextEpoch);
      entries := entries[xid := e];
      if e.registered {
        eff := StampGeometryPlacement(eff, e);
      }
    }

    method UnbindSurface(xid: nat, surface: nat) returns (eff: Effect)
      modifies this`entries
      ensures (Value(), eff) == RegistryModel.UnbindSurface(old(Value()), xid, surface)
    {
      eff := NO_EFFECT;
      if xid == 0 {
        return;
      }
      if xid !in entries || entries[xid].surface != surface {
        return;
      }
      var e := entries[xid].(surface := 0);
      if e.registered {
        entries := entries[xid := e.(representation := Unrepresented)];
      } else {
        entries := entries - {xid};
      }
      eff := eff.(applied := true);
    }

    method RegisterToplevel(xid: nat, generation: nat, role: string, title: string,
                            geometry: Geometry, isPopup: bool, owner: nat, popupKind: nat)
      returns (eff: Effect)
      modifies this
      ensures (Value(), eff) ==
              RegistryModel.RegisterToplevel(old(Value()), xid, generation, role, title, geometry,
                                             isPopup, owner, popupKind)
    {
      eff := NO_EFFECT;
      if xid == 0 {
        return;
      }
      if xid in entries && generation <= entries[xid].generation {
        return;
      }
      if isPopup {
        var live := OwnerLive(owner);
        if !live {
          return;
        }
      }
      var existed := xid in entries;
      var wasRegistered := existed && entries[xid].registered;
      var priorGeneration := if existed then entries[xid].generation else 0;
      var e := if existed then entries[xid] else BLANK_ENTRY;
      e := e.(xid := xid);
      e := e.(generation := generation);
      e := e.(registered := true);
      e := e.(visibility := Visible);
      e := e.(role := role, title := title, geometry := geometry);
      e := e.(isPopup := isPopup, ownerXid := owner, popupKind := popupKind);
      eff := eff.(applied := true, xid := xid);
      if e.surface != 0 {
        eff := KeepSurface(e, existed && !wasRegistered && priorGeneration > 0, eff);
        return;
      }
      if e.representation == Placeholder {
        entries := entries[xid := e];
        eff := StampGeometryPlacement(eff, e);
        return;
      }
      eff := AddPlaceholder(e, eff);
    }

    /** A surface represents the registered toplevel; one mapped again gets a new epoch. */
    method KeepSurface(noted: Entry, remapped: bool, bare: Effect) returns (eff: Effect)
      modifies this
      ensures var epoch := if remapped then old(nextEpoch) + 1 else old(nextEpoch);
              var e := noted.(representation := Surface, epoch := if remapped then epoch else noted.epoch);
              && Value() == old(Value()).(entries := old(entries)[noted.xid := e], nextEpoch := epoch,
                                          nextHostApplySeq := old(nextHostApplySeq) + 1)
              && eff == Stamped(bare, e, nextHostApplySeq)
    {
      var e := noted.(representation := Surface);
      if remapped {
        nextEpoch := nextEpoch + 1;
        e := e.(epoch := nextEpoch);
      }
      entries := entries[e.xid := e];
      eff := StampGeometryPlacement(bare, e);
    }

    /** A new placeholder represents the registered toplevel. */
    method AddPlaceholder(noted: Entry, bare: Effect) returns (eff: Effect)
      modifies this
      ensures var e := noted.(representation := Placeholder, placeholderId := old(nextPlaceholderId) + 1,
                              epoch := old(nextEpoch) + 1, shown := false, lastPaintSeq := 0);
              && Value() == Registry(old(entries)[noted.xid := e], e.placeholderId, e.epoch, old(nextHostApplySeq) + 1)
              && eff == Stamped(bare.(kind := CreatePlaceholder, placeholderId := e.placeholderId, isPopup := e.isPopup,
                                      ownerXid := e.ownerXid, popupKind := e.popupKind), e, nextHostApplySeq)
    {
      nextPlaceholderId := nextPlaceholderId + 1;
      nextEpoch := nextEpoch + 1;
      var e := noted.(representation := Placeholder, placeholderId := nextPlaceholderId, epoch := nextEpoch);
      e := e.(shown := false, lastPaintSeq := 0);
      entries := entries[e.xid := e];
      eff := bare.(kind := CreatePlaceholder, placeholderId := e.placeholderId, geometry := e.geometry);
      eff := eff.(isPopup := e.isPopup, ownerXid := e.ownerXid, popupKind := e.popupKind);
      eff := StampGeometryPlacement(eff, e);
    }

    method UpdateToplevel(xid: nat, generation: nat, role: string, geometry: Geometry,
                          zOrder: ZOrder) returns (eff: Effect)
      modifies this
      ensures (Value(), eff) ==
              RegistryModel.UpdateToplevel(old(Value()), xid, generation, role, geometry, zOrder)
    {
      eff := NO_EFFECT;
      if xid == 0 {
        return;
      }
      if xid !in entries || generation <= entries[xid].generation {
        return;
      }
      var e, placed := MergeUpdate(entries[xid], generation, role, geometry, zOrder);
      eff := PutUpdated(xid, e, placed, zOrder);
    }

    /** The updated entry is recorded, and placed if something moved. */
    method PutUpdated(xid: nat, e: Entry, placed: bool, zOrder: ZOrder) returns (eff: Effect)
      modifies this
      ensures var bare := NO_EFFECT.(applied := true, xid := xid);
              && Value() == old(Value()).(entries := old(entries)[xid := e],
                                          nextHostApplySeq := old(nextHostApplySeq) + if placed then 1 else 0)
              && eff == if placed then Stamped(bare.(kind := ApplyGeometry, zOrder := zOrder), e, nextHostApplySeq)
                        else bare
    {
      entries := entries[xid := e];
      eff := NO_EFFECT.(applied := true, xid := xid);
      if placed {
        nextHostApplySeq := nextHostApplySeq + 1;
        eff := eff.(kind := ApplyGeometry, geometry := e.geometry, hostApplySeq := nextHostApplySeq,
                    applySize := e.extentAuthoritative, zOrder := zOrder);
      }
    }

    method SetVisibility(xid: nat, generation: nat, state: Visibility) returns (eff: Effect)
      modifies this
      ensures (Value(), eff) == RegistryModel.SetVisibility(old(Value()), xid, generation, state)
    {
      eff := NO_EFFECT;
      if xid == 0 {
        return;
      }
      if xid !in entries || generation <= entries[xid].generation {
        return;
      }
      var e := entries[xid].(generation := generation);
      var changed := e.visibility != state;
      e := e.(visibility := state);
      entries := entries[xid := e];
      eff := eff.(applied := true, xid := xid);
      if changed {
        nextHostApplySeq := nextHostApplySeq + 1;
        eff := eff.(kind := ApplyVisibility, visibility := state, hostApplySeq := nextHostApplySeq);
      }
    }

    method UnregisterToplevel(xid: nat, generation: nat) returns (eff: Effect)
      modifies this`entries
      ensures (Value(), eff) == RegistryModel.UnregisterToplevel(old(Value()), xid, generation)
    {
      eff := NO_EFFECT;
      if xid == 0 {
        return;
      }
      if xid !in entries || generation <= entries[xid].generation {
        return;
      }
      var e := entries[xid].(generation := generation, registered := false);
      e := e.(role := "", title := "", geometry := ZERO_GEOMETRY);
      e := e.(extentAuthoritative := false, lastZOrder := KeepZ);
      eff := eff.(applied := true, xid := xid);
      if e.representation == Placeholder {
        eff := eff.(kind := DestroyPlaceholder, placeholderId := e.placeholderId);
        entries := entries - {xid};
        return;
      }
      if e.surface == 0 {
        entries := entries - {xid};
      } else {
        entries := entries[xid := e];
      }
    }

    /** The owner-teardown cascade walks the whole map in key order, dropping each orphan as it
        passes it. */
    method TakeOrphanedPopups(owner: nat) returns (effects: seq<Effect>)
      modifies this`entries
      ensures (Value(), effects) == RegistryModel.TakeOrphanedPopups(old(Value()), owner)
    {
      effects := [];
      if owner == 0 {
        return;
      }
      ghost var before := entries;
      var ahead := entries.Keys;
      WalkStart(before, owner);
      while ahead != {}
        invariant Walked(before, owner, ahead, entries, effects)
        decreases ahead
      {
        var xid := Least(ahead);
        WalkPast(before, owner, ahead, entries, effects, xid);
        var e := entries[xid];
        if e.isPopup && e.ownerXid == owner {
          var eff := NO_EFFECT.(applied := true, xid := e.xid, isPopup := true, ownerXid := owner);
          if e.representation == Placeholder {
            eff := eff.(kind := DestroyPlaceholder, placeholderId := e.placeholderId);
          }
          effects := effects + [eff];
          entries := entries - {xid};
        }
        ahead := ahead - {xid};
      }
      WalkEnd(before, owner, entries, effects);
    }

    method AcceptPlaceholderPaint(xid: nat, generation: nat, seqNo: nat) returns (d: PaintDecision)
      ensures d == AcceptPaint(Value(), xid, generation, seqNo)
    {
      d := PaintDecision(false, false, 0);
      if xid !in entries || entries[xid].representation != Placeholder {
        return;
      }
      var e := entries[xid];
      if generation != e.generation || seqNo <= e.lastPaintSeq {
        return;
      }
      d := PaintDecision(true, !e.shown, e.placeholderId);
    }

    method CommitPlaceholderPaint(xid: nat, generation: nat, seqNo: nat) returns (ok: bool)
      modifies this`entries
      ensures (Value(), ok) == CommitPaint(old(Value()), xid, generation, seqNo)
    {
      if xid !in entries || entries[xid].representation != Placeholder {
        return false;
      }
      var e := entries[xid];
      if generation != e.generation || seqNo <= e.lastPaintSeq {
        return false;
      }
      e := e.(shown := true);
      e := e.(lastPaintSeq := seqNo);
      entries := entries[xid := e];
      return true;
    }

    method OwnerLive(owner: nat) returns (live: bool)
      ensures live == RegistryModel.OwnerLive(Value(), owner)
    {
      if owner == 0 {
        return false;
      }
      return owner in entries && entries[owner].registered && !entries[owner].isPopup;
    }
  }

  /** The cascade's walk, with the keys in `ahead` still to visit: the orphans behind it are gone
      and have produced their effects. */
  ghost predicate Walked(before: map<nat, Entry>, owner: nat, ahead: set<nat>,
                         entries: map<nat, Entry>, effects: seq<Effect>)
  {
    && ahead <= before.Keys
    && entries == before - (Orphans(before, owner) - ahead)
    && effects + EffectsAhead(before, owner, ahead) ==
       OrphanEffects(before, owner, Ascending(Orphans(before, owner)))
  }

  /** The cascade's effects for the orphans still ahead of the walk. */
  ghost function EffectsAhead(entries: map<nat, Entry>, owner: nat, ahead: set<nat>): seq<Effect> {
    OrphanEffects(entries, owner, Ascending(Orphans(entries, owner) * ahead))
  }

  lemma WalkStart(before: map<nat, Entry>, owner: nat)
    ensures Walked(before, owner, before.Keys, before, [])
  {
    var orphans := Orphans(before, owner);
    assert orphans - before.Keys == {};
    assert before == before - {};
    assert orphans * before.Keys == orphans;
  }

  lemma WalkEnd(before: map<nat, Entry>, owner: nat, entries: map<nat, Entry>, effects: seq<Effect>)
    requires Walked(before, owner, {}, entries, effects)
    ensures entries == before - Orphans(before, owner)
    ensures effects == OrphanEffects(before, owner, Ascending(Orphans(before, owner)))
  {
    assert Orphans(before, owner) - {} == Orphans(before, owner);
    assert Orphans(before, owner) * {} == {};
  }

  lemma WalkPast(before: map<nat, Entry>, owner: nat, ahead: set<nat>,
                 entries: map<nat, Entry>, effects: seq<Effect>, xid: nat)
    requires Walked(before, owner, ahead, entries, effects) && IsLeast(xid, ahead)
    ensures xid in entries && entries[xid] == before[xid]
    ensures if xid in Orphans(before, owner)
            then Walked(before, owner, ahead - {xid}, entries - {xid}, effects + [OrphanEffect(before[xid], owner)])
            else Walked(before, owner, ahead - {xid}, entries, effects)
  {
    if xid in Orphans(before, owner) {
      WalkPastOrphan(before, owner, ahead, entries, effects, xid);
    } else {
      assert Orphans(before, owner) - (ahead - {xid}) == Orphans(before, owner) - ahead;
      assert Orphans(before, owner) * (ahead - {xid}) == Orphans(before, owner) * ahead;
    }
  }

  lemma WalkPastOrphan(before: map<nat, Entry>, owner: nat, ahead: set<nat>,
                       entries: map<nat, Entry>, effects: seq<Effect>, xid: nat)
    requires Walked(before, owner, ahead, entries, effects) && IsLeast(xid, ahead)
    requires xid in Orphans(before, owner)
    ensures Walked(before, owner, ahead - {xid}, entries - {xid}, effects + [OrphanEffect(before[xid], owner)])
  {
    var gone := Orphans(before, owner) - ahead;
    assert Orphans(before, owner) - (ahead - {xid}) == gone + {xid};
    DropOneMore(before, gone, xid);
    OrphanAhead(before, owner, ahead, xid);
    Assoc(effects, [OrphanEffect(before[xid], owner)], EffectsAhead(before, owner, ahead - {xid}));
  }

  lemma DropOneMore(m: map<nat, Entry>, gone: set<nat>, xid: nat)
    ensures m - gone - {xid} == m - (gone + {xid})
  {
  }

  /** When the next key visited is an orphan, its effect is the next effect of the cascade. */
  lemma OrphanAhead(entries: map<nat, Entry>, owner: nat, ahead: set<nat>, xid: nat)
    requires IsLeast(xid, ahead) && xid in Orphans(entries, owner)
    ensures EffectsAhead(entries, owner, ahead) ==
            [OrphanEffect(entries[xid], owner)] + EffectsAhead(entries, owner, ahead - {xid})
  {
    var here := Orphans(entries, owner) * ahead;
    assert Least(here) in ahead && xid in here;
    assert here - {xid} == Orphans(entries, owner) * (ahead - {xid});
    var later := Ascending(here - {xid});
    assert Ascending(here) == [xid] + later;
    assert ([xid] + later)[1..] == later;
  }
}
