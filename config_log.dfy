/**
  The configuration dump written at startup: every configuration entry is
  logged as its key and a shown value, where the value of a key mentioning
  "Password" or "Secret" (ordinal, ignoring case) is replaced by
  `***MASKED***` and a missing (null) value is shown as `(null)`.
  The log itself is modelled as the sequence of (key, shown value) lines.
 */
module ConfigLog {
  import opened Wrappers
  import opened Text
  import ConnectionString

  const PasswordKeyword: string := "Password"
  const SecretKeyword: string := "Secret"
  const NullText: string := "(null)"

  /** A configuration entry: its key and its value, which may be null. */
  type Entry = (string, Option<string>)

  /** A key whose value must not appear in the log. */
  function IsSensitiveKey(key: string): (sensitive: bool)
    ensures sensitive <==> exists i: nat :: MatchesAt(key, PasswordKeyword, i) || MatchesAt(key, SecretKeyword, i)
  {
    ContainsIgnoreCase(key, PasswordKeyword) || ContainsIgnoreCase(key, SecretKeyword)
  }

  /** The value logged for `key`: the mask for a sensitive key, the value itself or `(null)` otherwise. */
  function ShownValue(key: string, value: Option<string>): (shown: string)
    ensures IsSensitiveKey(key) ==> shown == ConnectionString.Mask
    ensures !IsSensitiveKey(key) && value.Some? ==> shown == value.value
    ensures !IsSensitiveKey(key) ==> (shown == NullText <==> value in {None, Some(NullText)})
  {
    var masked := if IsSensitiveKey(key) then Some(ConnectionString.Mask) else value;
    match masked
    case Some(v) => v
    case None => NullText
  }

  /** The startup loop over the configuration entries, collecting the lines it logs. */
  method LogConfiguration(entries: seq<Entry>) returns (lines: seq<(string, string)>)
    ensures |lines| == |entries|
    ensures forall k :: 0 <= k < |entries| ==>
              lines[k] == (entries[k].0, ShownValue(entries[k].0, entries[k].1))
  {
    lines := [];
    for i := 0 to |entries|
      invariant |lines| == i
      invariant forall k :: 0 <= k < i ==> lines[k] == (entries[k].0, ShownValue(entries[k].0, entries[k].1))
    {
      var (key, value) := entries[i];
      if ContainsIgnoreCase(key, PasswordKeyword) || ContainsIgnoreCase(key, SecretKeyword) {
        value := Some(ConnectionString.Mask);
      }
      var shown := match value case Some(v) => v case None => NullText;
      lines := lines + [(key, shown)];
    }
  }

  /** The line logged for a sensitive key does not depend on the value at all. */
  lemma SensitiveValueIndependent(key: string, a: Option<string>, b: Option<string>)
    requires IsSensitiveKey(key)
    ensures ShownValue(key, a) == ShownValue(key, b)
  {
  }

  /**
    For any other key the shown value determines the value, except that a null
    value and the text `(null)` are shown alike.
   */
  lemma NonSensitiveShownDeterminesValue(key: string, a: Option<string>, b: Option<string>)
    requires !IsSensitiveKey(key)
    requires ShownValue(key, a) == ShownValue(key, b)
    ensures a == b || (a in {None, Some(NullText)} && b in {None, Some(NullText)})
  {
  }

  /** The configuration key under which the connection string is read (Program.cs:27). */
  const ConnectionStringKey: string := "ConnectionStrings:DefaultConnection"

  /** The connection-string key does not mention "Password": it has no letter w. */
  lemma ConnectionStringKeyLacksPassword()
    ensures !ContainsIgnoreCase(ConnectionStringKey, PasswordKeyword)
  {
    NoMatchWithoutLetter(ConnectionStringKey, PasswordKeyword, 4);
  }

  /** The connection-string key around its letter r. */
  lemma ConnectionStringKeyAroundR()
    ensures ConnectionStringKey == "ConnectionSt" + ['r'] + "ings:DefaultConnection"
  {
  }

  /** Only one r occurs in the connection-string key, and no R. */
  lemma ConnectionStringKeyLettersR()
    ensures 'r' !in "ConnectionSt" && 'r' !in "ings:DefaultConnection" && 'R' !in ConnectionStringKey
  {
  }

  /** The only r of the connection-string key is its thirteenth character. */
  lemma ConnectionStringKeyOnlyR(q: nat)
    requires q < |ConnectionStringKey| && FoldAscii(ConnectionStringKey[q]) == 'R'
    ensures q == 12
  {
    ConnectionStringKeyLettersR();
    assert ConnectionStringKey[q] == 'r';
    ConnectionStringKeyAroundR();
    OnlyOccurrence("ConnectionSt", 'r', "ings:DefaultConnection", q);
  }

  /** "Secret" does not occur at offset `i` of the connection-string key: it would need an r at `i + 3`. */
  lemma ConnectionStringKeyNoSecretAt(i: nat)
    ensures !MatchesAt(ConnectionStringKey, SecretKeyword, i)
  {
    var s := ConnectionStringKey;
    if i + |SecretKeyword| <= |s| && FoldAscii(s[i + 3]) == FoldAscii(SecretKeyword[3]) {
      ConnectionStringKeyOnlyR(i + 3);
      assert s[i] == 'n';
      assert FoldAscii(s[i]) != FoldAscii(SecretKeyword[0]);
    }
  }

  /** The connection-string key does not mention "Secret". */
  lemma ConnectionStringKeyLacksSecret()
    ensures !ContainsIgnoreCase(ConnectionStringKey, SecretKeyword)
  {
    forall i: nat ensures !MatchesAt(ConnectionStringKey, SecretKeyword, i) {
      ConnectionStringKeyNoSecretAt(i);
    }
  }

  /**
    As written, the configuration dump logs the connection string itself in
    clear, password included, whatever it holds.
   */
  lemma ConnectionStringLoggedInClear(connectionString: string)
    ensures ShownValue(ConnectionStringKey, Some(connectionString)) == connectionString
  {
    ConnectionStringKeyLacksPassword();
    ConnectionStringKeyLacksSecret();
  }

  /** The shown value with the connection-string masking also applied to every value that is shown. */
  function ShownValueRedacted(key: string, value: Option<string>): (shown: string)
    ensures IsSensitiveKey(key) || value.None? ==> shown == ShownValue(key, value)
    ensures !IsSensitiveKey(key) && value.Some? ==> shown == ConnectionString.Masked(value.value)
  {
    if IsSensitiveKey(key) then ConnectionString.Mask
    else match value
      case Some(v) => ConnectionString.Masked(v)
      case None => NullText
  }

  /** Neither the mask nor `(null)` holds a `;` or a `=`. */
  lemma PlaceholderHasNoSeparator(shown: string)
    requires shown == ConnectionString.Mask || shown == NullText
    ensures ConnectionString.SegmentSeparator !in shown && ConnectionString.KeyValueSeparator !in shown
  {
  }

  /**
    With the redaction, no `;`-separated segment of any logged value that
    mentions "Password" and holds exactly one `=` shows anything but the mask
    after its `=`, the connection-string key included. The mask and `(null)`
    hold no `=`, so for a sensitive key or a null value there is no such segment.
   */
  lemma RedactedHidesPasswords(key: string, value: Option<string>, k: nat, i: nat)
    requires var parts := Split(ShownValueRedacted(key, value), ConnectionString.SegmentSeparator);
             && k < |parts| && i < |parts[k]| && parts[k][i] == ConnectionString.KeyValueSeparator
             && ConnectionString.KeyValueSeparator !in parts[k][..i]
             && ConnectionString.KeyValueSeparator !in parts[k][i + 1..]
             && ContainsIgnoreCase(parts[k], ConnectionString.PasswordKeyword)
    ensures Split(ShownValueRedacted(key, value), ConnectionString.SegmentSeparator)[k][i + 1..]
            == ConnectionString.Mask
  {
    if IsSensitiveKey(key) || value.None? {
      var shown := ShownValueRedacted(key, value);
      PlaceholderHasNoSeparator(shown);
      SplitNoSeparator(shown, ConnectionString.SegmentSeparator);
      assert false;
    } else {
      ConnectionString.MaskedHidesPasswords(value.value, k, i);
    }
  }
}
