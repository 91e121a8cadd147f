/**
 * Keybase chat notifications: the fixed catalog of notification kinds, the
 * single persisted settings record that says which kinds are enabled (created
 * on first use and repaired when it cannot be decoded or lacks a kind), the
 * queue of notifications waiting for delivery, and the chat rendering.
 */
module Keybase {
  import opened Wrappers
  import Text

  datatype CatalogEntry = CatalogEntry(id: string, description: string)

  /** The notification kinds, in the order of their declaration. */
  const Catalog: seq<CatalogEntry> := [
    CatalogEntry("user_registered", "A user has registered with the server"),
    CatalogEntry("user_already_exists",
      "A user tried to register"
      + " with an existing username (they might be trying to re-setup their Flock Agent;"
      + " if so delete the existing user so they can finish registering)"),
    CatalogEntry("reverse_shell", "A reverse shell was detected")
  ]

  /** The kinds announced to the whole channel. */
  const Warnings: seq<string> := ["reverse_shell"]

  const WarningPrefix: string := "@here :warning: :rotating_light:"

  function CatalogIds(): set<string> {
    set i | 0 <= i < |Catalog| :: Catalog[i].id
  }

  lemma CatalogIdsListed()
    ensures CatalogIds() == {"user_registered", "user_already_exists", "reverse_shell"}
  {
    assert Catalog[0].id == "user_registered";
    assert Catalog[1].id == "user_already_exists";
    assert Catalog[2].id == "reverse_shell";
  }

  function Description(id: string): string
    requires id in CatalogIds()
  {
    if id == Catalog[0].id then Catalog[0].description
    else if id == Catalog[1].id then Catalog[1].description
    else Catalog[2].description
  }

  /** The two kinds that are not warnings both start "A user " and part at the next character. */
  lemma PlainDescriptionsDiffer()
    ensures |Catalog[0].description| > 7 && |Catalog[1].description| > 7
    ensures Catalog[0].description[0] == 'A' && Catalog[1].description[0] == 'A'
    ensures Catalog[0].description[7] == 'h' && Catalog[1].description[7] == 't'
  {
    var head := "A user tried to register";
    assert Catalog[1].description == head + (" with an existing username (they might be trying to re-setup their Flock Agent;"
      + " if so delete the existing user so they can finish registering)");
    assert head[0] == 'A' && head[7] == 't';
  }

  /** The decoded value of the "keybase_notifications" setting, or a value `json.loads` rejects. */
  datatype StoredSettings = Undecodable | Prefs(enabled: map<string, bool>)

  /** A record of the notification queue. */
  datatype PendingNotification =
    PendingNotification(notificationType: string, details: string, delivered: bool, createdAt: int)

  /** Every catalog kind, enabled. */
  function Defaults(): map<string, bool> {
    map id | id in CatalogIds() :: true
  }

  /**
   * What `_is_enabled` answers for `id` and what the settings record holds
   * afterwards, given the record before (`None`: there is none).
   */
  function Lookup(id: string, stored: Option<StoredSettings>): (bool, Option<StoredSettings>) {
    if id !in CatalogIds() then (false, stored)
    else match stored
      case None => (true, Some(Prefs(Defaults())))
      case Some(Undecodable) => (true, Some(Prefs(Defaults())))
      case Some(Prefs(m)) =>
        if id in m then (m[id], stored) else (true, Some(Prefs(m[id := true])))
  }

  /** Kinds outside the catalog are never enabled, and the record is not touched. */
  lemma LookupUnknownKind(id: string, stored: Option<StoredSettings>)
    requires id !in CatalogIds()
    ensures Lookup(id, stored) == (false, stored)
  {
  }

  /**
   * For a catalog kind the record afterwards decodes and holds the answer
   * under `id`; when it decoded before, no key is dropped and every other key
   * keeps its value (stale keys are not pruned).
   */
  lemma LookupRepairs(id: string, stored: Option<StoredSettings>)
    requires id in CatalogIds()
    ensures var (enabled, after) := Lookup(id, stored);
      && after.Some? && after.value.Prefs?
      && id in after.value.enabled && after.value.enabled[id] == enabled
      && (stored.Some? && stored.value.Prefs? ==>
            && stored.value.enabled.Keys <= after.value.enabled.Keys
            && after.value.enabled.Keys <= stored.value.enabled.Keys + {id}
            && forall k :: k in stored.value.enabled && k != id ==> after.value.enabled[k] == stored.value.enabled[k])
      && (stored.None? || stored.value.Undecodable? ==> after.value.enabled == Defaults() && enabled)
  {
    if stored.None? || stored.value.Undecodable? {
      assert id in Defaults();
    }
  }

  /** Asking twice gives the same answer, and the second time writes nothing. */
  lemma LookupIdempotent(id: string, stored: Option<StoredSettings>)
    ensures var (enabled, after) := Lookup(id, stored);
            Lookup(id, after) == (enabled, after)
  {
    if id in CatalogIds() {
      LookupRepairs(id, stored);
    }
  }

  /**
   * A catalog kind the decoded record already holds is answered with its
   * stored value, and the record is not written.
   */
  lemma LookupStoredKind(id: string, stored: Option<StoredSettings>)
    requires id in CatalogIds() && stored.Some? && stored.value.Prefs? && id in stored.value.enabled
    ensures Lookup(id, stored) == (stored.value.enabled[id], stored)
  {
  }

  /** An answer of `false` only comes from a kind that is stored as disabled. */
  lemma LookupDisabledMeansStored(id: string, stored: Option<StoredSettings>)
    requires id in CatalogIds() && !Lookup(id, stored).0
    ensures stored.Some? && stored.value.Prefs? && id in stored.value.enabled && !stored.value.enabled[id]
  {
  }

  /** The notification store: the settings record and the queue. */
  datatype Store = Store(settings: Option<StoredSettings>, queue: seq<PendingNotification>)

  /** `add` on the store's values. */
  function AddStep(s: Store, id: string, details: string, now: int): Store {
    var (enabled, settings) := Lookup(id, s.settings);
    Store(settings, if enabled then s.queue + [PendingNotification(id, details, false, now)] else s.queue)
  }

  /** A run of `add` calls, one per event. */
  datatype Event = Event(id: string, details: string, now: int)

  function AddAll(s: Store, events: seq<Event>): Store
    decreases |events|
  {
    if events == [] then s
    else AddAll(AddStep(s, events[0].id, events[0].details, events[0].now), events[1..])
  }

  predicate Disabled(s: Store, id: string) {
    s.settings.Some? && s.settings.value.Prefs? && id in s.settings.value.enabled && !s.settings.value.enabled[id]
  }

  /**
   * Once a kind is stored as disabled, no run of `add` calls queues a
   * notification of that kind, whatever else they do; the queue only grows.
   */
  lemma {:induction false} DisabledNeverQueued(s: Store, id: string, events: seq<Event>)
    requires Disabled(s, id)
    decreases |events|
    ensures var after := AddAll(s, events);
      && Disabled(after, id)
      && |s.queue| <= |after.queue| && after.queue[..|s.queue|] == s.queue
      && forall i :: |s.queue| <= i < |after.queue| ==> after.queue[i].notificationType != id
  {
    if events != [] {
      var e := events[0];
      var next := AddStep(s, e.id, e.details, e.now);
      assert Disabled(next, id);
      DisabledNeverQueued(next, id, events[1..]);
      var after := AddAll(next, events[1..]);
      assert after == AddAll(s, events);
      assert after.queue[..|next.queue|] == next.queue;
      assert next.queue[..|s.queue|] == s.queue;
    }
  }

  /**
   * `add` leaves the settings record as the lookup does, and appends one
   * undelivered record of the kind, after everything queued before,
   * exactly when the kind is enabled; that kind is then a catalog kind.
   */
  lemma AddQueuesEnabledKindsOnly(s: Store, id: string, details: string, now: int)
    ensures var after := AddStep(s, id, details, now);
      && after.settings == Lookup(id, s.settings).1
      && (|after.queue| == |s.queue| + 1 <==> Lookup(id, s.settings).0)
      && (Lookup(id, s.settings).0 ==>
            id in CatalogIds() && after.queue == s.queue + [PendingNotification(id, details, false, now)])
      && (!Lookup(id, s.settings).0 ==> after.queue == s.queue)
  {
  }

  class KeybaseNotifications {
    /** The "keybase_notifications" record of the settings index, if there is one. */
    var settings: Option<StoredSettings>
    /** The records of the notification index, in the order they were saved. */
    var queue: seq<PendingNotification>

    constructor (settings: Option<StoredSettings>, queue: seq<PendingNotification>)
      ensures this.settings == settings && this.queue == queue
    {
      this.settings := settings;
      this.queue := queue;
    }

    /** `_get_default_settings`: one entry per catalog kind, all enabled. */
    method DefaultSettings() returns (defaults: map<string, bool>)
      ensures defaults.Keys == CatalogIds()
      ensures forall id :: id in defaults ==> defaults[id]
    {
      defaults := map[];
      var i := 0;
      while i < |Catalog|
        invariant 0 <= i <= |Catalog|
        invariant defaults.Keys == set j | 0 <= j < i :: Catalog[j].id
        invariant forall id :: id in defaults ==> defaults[id]
      {
        defaults := defaults[Catalog[i].id := true];
        i := i + 1;
      }
    }

    /** `_is_enabled`, reading and repairing the settings record. */
    method IsEnabled(id: string) returns (enabled: bool)
      modifies this`settings
      ensures (enabled, settings) == Lookup(id, old(settings))
    {
      if id !in CatalogIds() {
        return false;
      }
      match settings {
        case None =>
          var defaults := DefaultSettings();
          assert defaults == Defaults();
          settings := Some(Prefs(defaults));
          return true;
        case Some(Undecodable) =>
          var defaults := DefaultSettings();
          assert defaults == Defaults();
          settings := Some(Prefs(defaults));
          return true;
        case Some(Prefs(m)) =>
          if id in m {
            return m[id];
          }
          settings := Some(Prefs(m[id := true]));
          return true;
      }
    }

    /** `add`: queue an undelivered notification when its kind is enabled; `now` is the clock. */
    method Add(id: string, details: string, now: int)
      modifies this
      ensures Store(settings, queue) == AddStep(Store(old(settings), old(queue)), id, details, now)
    {
      var enabled := IsEnabled(id);
      if enabled {
        queue := queue + [PendingNotification(id, details, false, now)];
      }
    }
  }

  /** `format`: the chat message for a notification of a catalog kind. */
  function Format(id: string, details: string): string
    requires id in CatalogIds()
  {
    if id in Warnings then
      WarningPrefix + Description(id) + ":rotating_light::\n```\n" + details + "\n```"
    else
      Description(id) + ":\n```\n" + details + "\n```"
  }

  /** A plain message opens with its description, whose first letter is 'A'. */
  lemma PlainFormatShape(id: string, details: string)
    requires id in CatalogIds() && id !in Warnings
    ensures id == Catalog[0].id || id == Catalog[1].id
    ensures Format(id, details) == Description(id) + (":\n```\n" + details + "\n```")
    ensures |Format(id, details)| > 7 && Format(id, details)[0] == 'A'
    ensures Format(id, details)[7] == Description(id)[7]
  {
    CatalogIdsListed();
    PlainDescriptionsDiffer();
  }

  lemma WarningFormatShape(id: string, details: string)
    requires id in CatalogIds() && id in Warnings
    ensures Format(id, details) == WarningPrefix + (Description(id) + ":rotating_light::\n```\n" + details + "\n```")
  {
  }

  /** The channel-wide warning marker appears exactly on the warning kinds. */
  lemma FormatWarnsExactlyWarnings(id: string, details: string)
    requires id in CatalogIds()
    ensures Text.OccursAt(Format(id, details), WarningPrefix, 0) <==> id in Warnings
  {
    if id in Warnings {
      WarningFormatShape(id, details);
    } else {
      PlainFormatShape(id, details);
      assert WarningPrefix[0] == '@';
    }
  }

  /** The message determines the notification kind and its details. */
  lemma FormatInjective(a: string, da: string, b: string, db: string)
    requires a in CatalogIds() && b in CatalogIds()
    requires Format(a, da) == Format(b, db)
    ensures a == b && da == db
  {
    var ra, rb := Format(a, da), Format(b, db);
    if a != b {
      if (a in Warnings) != (b in Warnings) {
        FormatWarnsExactlyWarnings(a, da);
        FormatWarnsExactlyWarnings(b, db);
      } else if a !in Warnings {
        // the two kinds that are not warnings part at the eighth character
        PlainFormatShape(a, da);
        PlainFormatShape(b, db);
        PlainDescriptionsDiffer();
      } else {
        CatalogIdsListed();
      }
    } else {
      var head := if a in Warnings then WarningPrefix + Description(a) + ":rotating_light::\n```\n"
                  else Description(a) + ":\n```\n";
      assert ra == head + da + "\n```" && rb == head + db + "\n```";
      assert da == ra[|head|..|ra| - 4];
      assert db == rb[|head|..|rb| - 4];
    }
  }
}
