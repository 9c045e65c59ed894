/**
 * `initializeDarkMode`: the `dark-mode` class of the body, the icon of the
 * toggle button, and the `darkMode` key of `localStorage`.
 */
module DarkMode {

  /** The `localStorage` key and its two values. */
  const Key: string := "darkMode"
  const Enabled: string := "enabled"
  const Disabled: string := "disabled"

  /** The toggle button's text: '☀️' or '🌙'. */
  datatype Icon = Sun | Moon

  /** `updateButtonIcon`: the sun while dark, the moon while light. */
  function IconFor(dark: bool): (icon: Icon)
    ensures icon == Sun <==> dark
  {
    if dark then Sun else Moon
  }

  /** The value the click handler writes back. */
  function Persisted(dark: bool): (value: string)
    ensures value == Enabled <==> dark
    ensures value == Enabled || value == Disabled
  {
    if dark then Enabled else Disabled
  }

  /** The page-load check `localStorage.getItem('darkMode') === 'enabled'`; an absent key does not match. */
  predicate Restored(storage: map<string, string>)
  {
    Key in storage && storage[Key] == Enabled
  }

  /** Writing a flag and reading it back gives the same flag, whatever else is stored. */
  lemma RestorePersisted(storage: map<string, string>, dark: bool)
    ensures Restored(storage[Key := Persisted(dark)]) == dark
  {
  }

  class Toggle {
    /** The body carries the `dark-mode` class. */
    var dark: bool
    /** The toggle button's text. */
    var icon: Icon
    /** The contents of `localStorage`. */
    var storage: map<string, string>

    ghost predicate Valid()
      reads this
    {
      icon == IconFor(dark)
    }

    /**
     * Page load: the class is added when the stored value is `'enabled'`,
     * otherwise the body keeps whatever class the page was served with
     * (`bodyDark`); then the icon is set to match.
     */
    constructor Initialize(stored: map<string, string>, bodyDark: bool)
      ensures Valid()
      ensures dark == (bodyDark || Restored(stored))
      ensures storage == stored
    {
      var isDark := bodyDark;
      if Restored(stored) {
        isDark := true;
      }
      storage, dark, icon := stored, isDark, IconFor(isDark);
    }

    /** One click: toggle the class, write the new preference, refresh the icon. */
    method Click()
      requires Valid()
      modifies this
      ensures Valid()
      ensures dark == !old(dark)
      ensures storage == old(storage)[Key := Persisted(dark)]
      ensures Restored(storage) == dark
    {
      dark := !dark;
      storage := storage[Key := Persisted(dark)];
      icon := IconFor(dark);
    }
  }

  /**
   * A click and then a reload of a page served without the class: the new
   * session shows the same mode and the same icon as the old one did.
   */
  method ClickThenReload(stored: map<string, string>, bodyDark: bool) returns (before: Toggle, after: Toggle)
    ensures after.dark == before.dark && after.icon == before.icon
    ensures before.dark == !(bodyDark || Restored(stored))
  {
    before := new Toggle.Initialize(stored, bodyDark);
    before.Click();
    after := new Toggle.Initialize(before.storage, false);
  }
}
