/**
 * The settings panel of src/components/nodes/AppSettingsNode.tsx: a local
 * settings record with fixed defaults, replaced one top-level key at a time
 * (the theme colours by merging into the theme), and a full record handed to
 * the global store on every edit.
 */
module AppSettingsNode {

  datatype Theme = Theme(primary: string, secondary: string)

  datatype AppSettings = AppSettings(name: string, title: string, description: string, icon: string, theme: Theme)

  /** `keyof AppSettings` */
  datatype Key = NameKey | TitleKey | DescriptionKey | IconKey | ThemeKey

  /** A field's value: text for the four text keys, a colour pair for the theme. */
  datatype Value = TextValue(text: string) | ThemeValue(theme: Theme)

  /** The `(key, value)` pair an input hands to `updateSettings`. */
  datatype Setting =
    | NameSetting(name: string)
    | TitleSetting(title: string)
    | DescriptionSetting(description: string)
    | IconSetting(icon: string)
    | ThemeSetting(theme: Theme)

  /** The record `useState` starts from. */
  const Defaults: AppSettings := AppSettings(
    "ai-mvc-app",
    "AI MVC Application",
    "A modern MVC application built with AI",
    "/vite.svg",
    Theme("#6366f1", "#8b5cf6"))

  function KeyOf(f: Setting): Key {
    match f
    case NameSetting(_) => NameKey
    case TitleSetting(_) => TitleKey
    case DescriptionSetting(_) => DescriptionKey
    case IconSetting(_) => IconKey
    case ThemeSetting(_) => ThemeKey
  }

  function ValueOf(f: Setting): Value {
    match f
    case NameSetting(v) => TextValue(v)
    case TitleSetting(v) => TextValue(v)
    case DescriptionSetting(v) => TextValue(v)
    case IconSetting(v) => TextValue(v)
    case ThemeSetting(t) => ThemeValue(t)
  }

  /** `settings[key]` */
  function Get(s: AppSettings, k: Key): Value {
    match k
    case NameKey => TextValue(s.name)
    case TitleKey => TextValue(s.title)
    case DescriptionKey => TextValue(s.description)
    case IconKey => TextValue(s.icon)
    case ThemeKey => ThemeValue(s.theme)
  }

  /** Two records that agree on every key are the same record. */
  lemma GetDetermines(s: AppSettings, t: AppSettings)
    requires forall k :: Get(s, k) == Get(t, k)
    ensures s == t
  {
    assert Get(s, NameKey) == Get(t, NameKey);
    assert Get(s, TitleKey) == Get(t, TitleKey);
    assert Get(s, DescriptionKey) == Get(t, DescriptionKey);
    assert Get(s, IconKey) == Get(t, IconKey);
    assert Get(s, ThemeKey) == Get(t, ThemeKey);
  }

  /** `{ ...s, [key]: value }`: the given key holds the new value, every other key keeps its value. */
  function With(s: AppSettings, f: Setting): (r: AppSettings)
    ensures Get(r, KeyOf(f)) == ValueOf(f)
    ensures forall k :: k != KeyOf(f) ==> Get(r, k) == Get(s, k)
  {
    match f
    case NameSetting(v) => s.(name := v)
    case TitleSetting(v) => s.(title := v)
    case DescriptionSetting(v) => s.(description := v)
    case IconSetting(v) => s.(icon := v)
    case ThemeSetting(t) => s.(theme := t)
  }

  /** Of two writes to the same key the second wins; writing a value twice is writing it once. */
  lemma WithSameKey(s: AppSettings, f: Setting, g: Setting)
    requires KeyOf(f) == KeyOf(g)
    ensures With(With(s, f), g) == With(s, g)
  {
    GetDetermines(With(With(s, f), g), With(s, g));
  }

  /** Writes to different keys can be made in either order. */
  lemma WithOtherKeys(s: AppSettings, f: Setting, g: Setting)
    requires KeyOf(f) != KeyOf(g)
    ensures With(With(s, f), g) == With(With(s, g), f)
  {
    GetDetermines(With(With(s, f), g), With(With(s, g), f));
  }

  /** The setting that writes a key's current value. */
  function Current(s: AppSettings, k: Key): (f: Setting)
    ensures KeyOf(f) == k && ValueOf(f) == Get(s, k)
  {
    match k
    case NameKey => NameSetting(s.name)
    case TitleKey => TitleSetting(s.title)
    case DescriptionKey => DescriptionSetting(s.description)
    case IconKey => IconSetting(s.icon)
    case ThemeKey => ThemeSetting(s.theme)
  }

  /** Writing back what a key holds changes nothing. */
  lemma WithCurrent(s: AppSettings, k: Key)
    ensures With(s, Current(s, k)) == s
  {
    GetDetermines(With(s, Current(s, k)), s);
  }

  /** The primary colour input: `{ ...settings.theme, primary: color }` under the theme key. */
  function PrimaryEdit(s: AppSettings, color: string): (f: Setting)
    ensures KeyOf(f) == ThemeKey
    ensures With(s, f) == s.(theme := Theme(color, s.theme.secondary))
  {
    ThemeSetting(s.theme.(primary := color))
  }

  /** The secondary colour input: `{ ...settings.theme, secondary: color }` under the theme key. */
  function SecondaryEdit(s: AppSettings, color: string): (f: Setting)
    ensures KeyOf(f) == ThemeKey
    ensures With(s, f) == s.(theme := Theme(s.theme.primary, color))
  {
    ThemeSetting(s.theme.(secondary := color))
  }

  /**
   * The component's state. `settings` is the state React holds; `rendered`
   * is the record of the last render, which the handlers close over; `pushed`
   * lists the records handed to the global store's `updateAppSettings`.
   */
  class SettingsPanel {
    var settings: AppSettings
    var rendered: AppSettings
    var pushed: seq<AppSettings>

    constructor ()
      ensures settings == rendered == AppSettings(
        "ai-mvc-app", "AI MVC Application", "A modern MVC application built with AI", "/vite.svg",
        Theme("#6366f1", "#8b5cf6"))
      ensures pushed == []
    {
      settings, rendered, pushed := Defaults, Defaults, [];
    }

    /** A re-render: the handlers now see the current state. */
    method Render()
      modifies this`rendered
      ensures rendered == settings
    {
      rendered := settings;
    }

    /**
     * `updateSettings(key, value)`. The state update is functional, so it
     * applies to the latest state; the record handed to the store is built
     * from the render's snapshot. When the snapshot is current the store
     * receives exactly the new state, as a whole record.
     */
    method UpdateSettings(f: Setting)
      modifies this`settings, this`pushed
      ensures settings == With(old(settings), f)
      ensures pushed == old(pushed) + [With(rendered, f)]
      ensures old(settings) == rendered ==> pushed[|pushed| - 1] == settings
    {
      settings := With(settings, f);
      pushed := pushed + [With(rendered, f)];
    }

    /** The primary colour input's `onChange`. */
    method EditPrimary(color: string)
      modifies this`settings, this`pushed
      ensures settings == With(old(settings), PrimaryEdit(rendered, color))
      ensures settings.theme == Theme(color, rendered.theme.secondary)
      ensures pushed == old(pushed) + [rendered.(theme := Theme(color, rendered.theme.secondary))]
    {
      UpdateSettings(PrimaryEdit(rendered, color));
    }

    /** The secondary colour input's `onChange`. */
    method EditSecondary(color: string)
      modifies this`settings, this`pushed
      ensures settings == With(old(settings), SecondaryEdit(rendered, color))
      ensures settings.theme == Theme(rendered.theme.primary, color)
      ensures pushed == old(pushed) + [rendered.(theme := Theme(rendered.theme.primary, color))]
    {
      UpdateSettings(SecondaryEdit(rendered, color));
    }
  }
}
