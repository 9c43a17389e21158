/**
 * Per-user language preferences: the (speaking, translate-to) pair each
 * user registered, and the map the bot keeps of them.
 *
 * Loading from and saving to the JSON settings file is not modelled: the
 * manager starts from the map the file held, and every update is a plain
 * map update.
 */
module UserSettings {
  import opened Types

  /** The short codes the bot offers. */
  const ShortCodes: set<string> := {"ja", "ko", "en"}

  /** `UserLanguageSetting`: the language a user speaks and the one to translate into. */
  datatype UserLanguageSetting = UserLanguageSetting(sourceLang: string, targetLang: string)
  {
    /** `get_source_full`. */
    function SourceFull(): string
    {
      ToFullName(sourceLang)
    }

    /** `get_target_full`. */
    function TargetFull(): string
    {
      ToFullName(targetLang)
    }
  }

  /** `UserLanguageSetting::new`: both languages stored as given. */
  function NewSetting(source: string, target: string): (s: UserLanguageSetting)
    ensures s.sourceLang == source && s.targetLang == target
  {
    UserLanguageSetting(source, target)
  }

  /**
   * `to_full_name`: the English name of a short code; any other string is
   * returned unchanged. Distinct codes get distinct names, none of which is
   * itself a code.
   */
  function ToFullName(lang: string): (name: string)
    ensures lang !in ShortCodes ==> name == lang
    ensures lang == "ja" ==> name == "Japanese"
    ensures lang == "ko" ==> name == "Korean"
    ensures lang == "en" ==> name == "English"
    ensures lang in ShortCodes ==> name !in ShortCodes
  {
    if lang == "ja" then "Japanese"
    else if lang == "ko" then "Korean"
    else if lang == "en" then "English"
    else lang
  }

  /** Two short codes with the same full name are the same code. */
  lemma ToFullNameInjective(a: string, b: string)
    requires a in ShortCodes && b in ShortCodes
    requires ToFullName(a) == ToFullName(b)
    ensures a == b
  {
  }

  /** The test of `UserLanguageSetting`: ("ja", "ko") reads back as Japanese to Korean. */
  lemma SettingExample()
    ensures NewSetting("ja", "ko").SourceFull() == "Japanese"
    ensures NewSetting("ja", "ko").TargetFull() == "Korean"
  {
  }

  /** The keys of a list of entries, in order. */
  function KeysOf(entries: seq<(UserId, UserLanguageSetting)>): (keys: seq<UserId>)
    ensures |keys| == |entries|
    ensures forall i :: 0 <= i < |entries| ==> keys[i] == entries[i].0
  {
    seq(|entries|, i requires 0 <= i < |entries| => entries[i].0)
  }

  /** `UserSettingsManager`: the preference of every user who registered one. */
  class UserSettingsManager {
    var settings: map<UserId, UserLanguageSetting>

    /** `UserSettingsManager::new`, given what the settings file held. */
    constructor(loaded: map<UserId, UserLanguageSetting>)
      ensures settings == loaded
    {
      settings := loaded;
    }

    /** `set_user_language`: the user's entry becomes (source, target), whatever it was. */
    method SetUserLanguage(userId: UserId, sourceLang: string, targetLang: string)
      modifies this
      ensures settings == old(settings)[userId := NewSetting(sourceLang, targetLang)]
    {
      var setting := NewSetting(sourceLang, targetLang);
      settings := settings[userId := setting];
    }

    /** `get_user_setting`: the user's entry, or None for a user who never set one (or removed it). */
    method GetUserSetting(userId: UserId) returns (r: Option<UserLanguageSetting>)
      ensures r.Some? <==> userId in settings
      ensures r.Some? ==> r.value == settings[userId]
    {
      if userId in settings {
        r := Some(settings[userId]);
      } else {
        r := None;
      }
    }

    /** `remove_user_setting`: the user's entry goes; every other entry stays. */
    method RemoveUserSetting(userId: UserId)
      modifies this
      ensures settings == old(settings) - {userId}
    {
      settings := settings - {userId};
    }

    /** `list_all_settings`: every entry exactly once, in the map's iteration order. */
    method ListAllSettings() returns (entries: seq<(UserId, UserLanguageSetting)>)
      ensures Distinct(KeysOf(entries))
      ensures Elements(KeysOf(entries)) == settings.Keys
      ensures forall i :: 0 <= i < |entries| ==> entries[i].1 == settings[entries[i].0]
    {
      entries := [];
      var remaining := settings.Keys;
      while remaining != {}
        invariant remaining <= settings.Keys
        invariant Distinct(KeysOf(entries))
        invariant Elements(KeysOf(entries)) == settings.Keys - remaining
        invariant forall i :: 0 <= i < |entries| ==> entries[i].0 in settings && entries[i].1 == settings[entries[i].0]
        decreases remaining
      {
        var userId :| userId in remaining;
        ElementsAppend(KeysOf(entries), userId);
        assert KeysOf(entries + [(userId, settings[userId])]) == KeysOf(entries) + [userId];
        entries := entries + [(userId, settings[userId])];
        remaining := remaining - {userId};
      }
    }
  }
}
