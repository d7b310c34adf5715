/**
 * The settings store (`useSettings.ts`): a record of four preferences with
 * fixed defaults, a load that lays the saved fields over the defaults, and
 * a shallow-merge update. Values are not validated: any value of a field's
 * type is accepted.
 */
module SettingsStore {
  import opened Common
  import opened Types

  /** `defaultSettings`. */
  const Defaults := Settings("07:00", true, Light, Monday)

  /** `Partial<Settings>`, and the shape of a parsed save: each field may be
      present or absent. */
  datatype SettingsPatch = SettingsPatch(wakeUpTime: Option<string>, notifications: Option<bool>,
                                         theme: Option<Theme>, weekStartsOn: Option<WeekStart>)

  const NoChanges := SettingsPatch(None, None, None, None)

  /** `updateSettings`, `{ ...current, ...patch }`: present fields
      replace, absent fields keep their values. */
  function UpdateSettings(current: Settings, p: SettingsPatch): (r: Settings)
    ensures p.wakeUpTime.Some? ==> r.wakeUpTime == p.wakeUpTime.value
    ensures p.wakeUpTime.None? ==> r.wakeUpTime == current.wakeUpTime
    ensures p.notifications.Some? ==> r.notifications == p.notifications.value
    ensures p.notifications.None? ==> r.notifications == current.notifications
    ensures p.theme.Some? ==> r.theme == p.theme.value
    ensures p.theme.None? ==> r.theme == current.theme
    ensures p.weekStartsOn.Some? ==> r.weekStartsOn == p.weekStartsOn.value
    ensures p.weekStartsOn.None? ==> r.weekStartsOn == current.weekStartsOn
  {
    Settings(p.wakeUpTime.GetOr(current.wakeUpTime), p.notifications.GetOr(current.notifications),
             p.theme.GetOr(current.theme), p.weekStartsOn.GetOr(current.weekStartsOn))
  }

  /** The initial settings: the saved fields over the defaults when a save
      exists and parses, the defaults otherwise. */
  function LoadSettings(saved: Option<SettingsPatch>): (r: Settings)
    ensures saved.None? ==> r == Defaults
    ensures saved.Some? ==> r == UpdateSettings(Defaults, saved.value)
  {
    if saved.Some? then UpdateSettings(Defaults, saved.value) else Defaults
  }

  /** A full record written out as a patch with every field present. */
  function AsPatch(s: Settings): (r: SettingsPatch)
    ensures r.wakeUpTime.Some? && r.notifications.Some? && r.theme.Some? && r.weekStartsOn.Some?
  {
    SettingsPatch(Some(s.wakeUpTime), Some(s.notifications), Some(s.theme), Some(s.weekStartsOn))
  }

  /** Saving settings and loading them back yields the same settings. */
  lemma SaveLoadRoundTrip(s: Settings)
    ensures LoadSettings(Some(AsPatch(s))) == s
  {
  }

  /** An update with no fields present changes nothing. */
  lemma UpdateNoChanges(current: Settings)
    ensures UpdateSettings(current, NoChanges) == current
  {
  }

  /** Applying the same update twice is applying it once. */
  lemma UpdateIdempotent(current: Settings, p: SettingsPatch)
    ensures UpdateSettings(UpdateSettings(current, p), p) == UpdateSettings(current, p)
  {
  }

  /** Two updates in a row are one update with the later fields winning. */
  function Then(p: SettingsPatch, q: SettingsPatch): SettingsPatch {
    SettingsPatch(if q.wakeUpTime.Some? then q.wakeUpTime else p.wakeUpTime,
                  if q.notifications.Some? then q.notifications else p.notifications,
                  if q.theme.Some? then q.theme else p.theme,
                  if q.weekStartsOn.Some? then q.weekStartsOn else p.weekStartsOn)
  }

  lemma UpdateCompose(current: Settings, p: SettingsPatch, q: SettingsPatch)
    ensures UpdateSettings(UpdateSettings(current, p), q) == UpdateSettings(current, Then(p, q))
  {
  }

  /** A save holding only some fields loads with the defaults elsewhere. */
  lemma PartialSaveKeepsDefaults()
    ensures LoadSettings(Some(SettingsPatch(None, None, Some(Dark), None))) == Settings("07:00", true, Dark, Monday)
  {
  }
}
