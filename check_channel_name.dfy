/** The "Check Channel Name" block (dist/check-channel-name.js): it decides
    whether a name is acceptable for a Discord channel of the chosen type
    and fires "action_true" or "action_false" accordingly. */
module CheckChannelName {
  import opened Results
  import opened JsString
  import opened JsValue
  import opened Host

  /** The characters a text channel name may not contain: the space and
      the ASCII symbols other than `-` and `_`. */
  const InvalidTextChannelCharacters: string := " ~!@#$%^&*()+{}|:\"<>?`=,./;'\\[]"

  /** The space and the ASCII punctuation marks other than `-` and `_`. */
  predicate IsSymbolOrSpace(c: char) {
    || (' ' <= c <= '/' && c != '-')
    || (':' <= c <= '@')
    || ('[' <= c <= '`' && c != '_')
    || ('{' <= c <= '~')
  }

  /** The forbidden list is exactly the space and the ASCII punctuation
      marks other than `-` and `_`. */
  lemma InvalidCharactersAreSymbols(c: char)
    ensures c in InvalidTextChannelCharacters <==> IsSymbolOrSpace(c)
  {
  }

  /** The block's only option, with its SELECT keys in listing order. */
  const Options: seq<BlockOption> := [
    BlockOption("channel_type", SelectOption(["text", "voice", "category", "thread"]))
  ]

  /** The one error the block throws. */
  datatype Error = InvalidChannelType(channelType: Value)

  /** The message of the thrown `Error`. */
  function Message(e: Error): string {
    "invalid channel type: " + ToString(e.channelType)
  }

  /** `containsInvalidCharacter`: some character of `characters` occurs in `input`. */
  function ContainsInvalidCharacter(input: string, characters: string): bool {
    if characters == [] then false
    else if characters[0] in input then true
    else ContainsInvalidCharacter(input, characters[1..])
  }

  /** `some` over the characters: the result says whether the two strings
      share a character. */
  lemma {:induction false} ContainsInvalidCharacterShared(input: string, characters: string)
    ensures ContainsInvalidCharacter(input, characters) <==> exists c :: c in characters && c in input
  {
    if characters != [] {
      ContainsInvalidCharacterShared(input, characters[1..]);
      assert forall c :: c in characters <==> c == characters[0] || c in characters[1..];
    }
  }

  /** `isLowerCase`: lower-casing leaves the string as it is, that is, it
      holds no upper-case letter. */
  function IsLowerCase(input: string): (r: bool)
    ensures r <==> forall i :: 0 <= i < |input| ==> !IsUpper(input[i])
  {
    ToLowerFixed(input);
    ToLower(input) == input
  }

  /** The three rules for a text channel: no forbidden character once the
      ends are trimmed, no upper-case letter, and no leading dash. */
  predicate TextNameRules(name: string)
    requires |name| >= 1
  {
    && !ContainsInvalidCharacter(Trim(name), InvalidTextChannelCharacters)
    && IsLowerCase(name)
    && name[0] != '-'
  }

  /** `validateInput`: a non-string, or a string outside 1..100 UTF-16 code
      units (white space included), is invalid whatever the type; thread,
      category and voice channels accept any other name; text channels
      apply their rules; any other type is an error. */
  function ValidateInput(channelName: Value, channelType: Value): (r: Result<bool, Error>)
    ensures r.Err? <==> channelName.Str? && 1 <= Utf16Length(channelName.s) <= 100
                        && channelType !in [Str("thread"), Str("category"), Str("voice"), Str("text")]
    ensures r.Err? ==> r.error == InvalidChannelType(channelType)
    ensures !channelName.Str? ==> r == Ok(false)
    ensures channelName.Str? && !(1 <= Utf16Length(channelName.s) <= 100) ==> r == Ok(false)
    ensures channelName.Str? && 1 <= Utf16Length(channelName.s) <= 100
            && channelType in [Str("thread"), Str("category"), Str("voice")]
            ==> r == Ok(true)
    ensures channelName.Str? && 1 <= Utf16Length(channelName.s) <= 100 && channelType == Str("text")
            ==> r == Ok(&& !ContainsInvalidCharacter(Trim(channelName.s), InvalidTextChannelCharacters)
                        && IsLowerCase(channelName.s)
                        && channelName.s[0] != '-')
  {
    if !channelName.Str? then Ok(false)
    else if Utf16Length(channelName.s) < 1 || Utf16Length(channelName.s) > 100 then Ok(false)
    else if channelType == Str("thread") || channelType == Str("category") || channelType == Str("voice") then Ok(true)
    else if channelType == Str("text") then Ok(TextNameRules(channelName.s))
    else Err(InvalidChannelType(channelType))
  }

  /** What one run decides from its inputs and options. */
  function Verdict(inputs: map<string, Value>, options: map<string, Value>): Result<bool, Error> {
    ValidateInput(Get(inputs, "channel_name"), Get(options, "channel_type"))
  }

  /** The continuation fired for a verdict. */
  function Continuation(valid: bool): string {
    if valid then "action_true" else "action_false"
  }

  /** `code()`: validate the name for the chosen type and fire exactly one of
      "action_true" and "action_false"; a thrown error fires neither. */
  method Code(dbb: DBBMock, cache: Cache) returns (outcome: Result<bool, Error>)
    modifies cache`outputs
    ensures outcome == Verdict(old(cache.inputs), old(cache.options))
    ensures outcome.Ok? ==> cache.outputs == old(cache.outputs)[Continuation(outcome.value) := Called]
    ensures outcome.Err? ==> cache.outputs == old(cache.outputs)
  {
    var channelName := dbb.GetInputValue("channel_name", cache);
    var channelType := dbb.GetOptionValue("channel_type", cache);
    var valid := ValidateInput(channelName, channelType);
    if valid.Err? {
      return Err(valid.error);
    }
    if valid.value {
      dbb.RunNextBlock("action_true", cache);
    } else {
      dbb.RunNextBlock("action_false", cache);
    }
    outcome := valid;
  }

  /** The options a run sees when the caller overrides some of them. */
  function RunOptions(overrides: map<string, Value>): map<string, Value> {
    MergeOptions(Defaults(Options), overrides)
  }

  /** Without an override the channel type is "text". */
  lemma DefaultIsText()
    ensures Get(RunOptions(map[]), "channel_type") == Str("text")
  {
    DefaultsOfOption(Options, 0);
  }

  /** `DBBMock.runBlock(checkChannelName, inputs, overrides)`: the outputs
      hold exactly the one continuation of the verdict. */
  method RunBlock(inputs: map<string, Value>, overrides: map<string, Value>) returns (cache: Cache, outcome: Result<bool, Error>)
    ensures outcome == Verdict(inputs, RunOptions(overrides))
    ensures outcome.Ok? ==> cache.outputs == map[Continuation(outcome.value) := Called]
    ensures outcome.Err? ==> cache.outputs == map[]
  {
    var dbb;
    dbb, cache := DBBMock.PrepareRun(Options, inputs, overrides);
    outcome := Code(dbb, cache);
  }

  // ---------------------------------------------------------------------
  // Properties.
  // ---------------------------------------------------------------------

  /** A name without a space or a forbidden symbol passes the character rule. */
  lemma NoForbiddenCharacter(name: string)
    requires forall i :: 0 <= i < |name| ==> !IsSymbolOrSpace(name[i])
    ensures !ContainsInvalidCharacter(Trim(name), InvalidTextChannelCharacters)
  {
    TrimMembers(name);
    NoSymbolPasses(Trim(name));
  }

  /** Trimming only removes characters. */
  lemma TrimMembers(name: string)
    ensures forall c :: c in Trim(name) ==> c in name
  {
    TrimIsInfix(name);
    var t := Trim(name);
    var k := TextStart(name, 0);
    forall c | c in t ensures c in name {
      var j :| 0 <= j < |t| && t[j] == c;
      assert name[k + j] == c;
    }
  }

  lemma NoSymbolPasses(t: string)
    requires forall c :: c in t ==> !IsSymbolOrSpace(c)
    ensures !ContainsInvalidCharacter(t, InvalidTextChannelCharacters)
  {
    ContainsInvalidCharacterShared(t, InvalidTextChannelCharacters);
    forall c | c in t ensures c !in InvalidTextChannelCharacters {
      InvalidCharactersAreSymbols(c);
    }
  }

  /** White space at the ends does not count against the character rule,
      but does count towards the length. */
  lemma PaddingIgnoredByCharacterRule(w1: string, name: string, w2: string)
    requires AllWhiteSpace(w1) && AllWhiteSpace(w2)
    ensures ContainsInvalidCharacter(Trim(w1 + name + w2), InvalidTextChannelCharacters)
            == ContainsInvalidCharacter(Trim(name), InvalidTextChannelCharacters)
    ensures Utf16Length(w1 + name + w2) == Utf16Length(w1) + Utf16Length(name) + Utf16Length(w2)
  {
    TrimPadded(w1, name, w2);
    Utf16LengthAppend(w1, name);
    Utf16LengthAppend(w1 + name, w2);
  }

  /** Voice, thread and category channels accept every name of 1 to 100 code units. */
  lemma NonTextTypesAcceptAnyLength(name: string, channelType: Value)
    requires channelType in [Str("voice"), Str("thread"), Str("category")]
    ensures ValidateInput(Str(name), channelType) == Ok(1 <= Utf16Length(name) <= 100)
  {
  }

  /** A name that is not a string is invalid, even for an unknown channel type. */
  lemma NonStringInvalid(channelName: Value, channelType: Value)
    requires !channelName.Str?
    ensures ValidateInput(channelName, channelType) == Ok(false)
  {
  }

  /** A name of allowed, lower-case characters that does not start with a
      dash meets the text channel rules. */
  lemma TextNameAccepted(name: string)
    requires |name| >= 1
    requires forall i :: 0 <= i < |name| ==> !IsSymbolOrSpace(name[i]) && !IsUpper(name[i])
    requires name[0] != '-'
    ensures TextNameRules(name)
  {
    NoForbiddenCharacter(name);
  }

  /** A forbidden character that is not white space breaks the text channel
      rules wherever it stands, since trimming cannot remove it. */
  lemma ForbiddenCharacterRejected(name: string, i: int)
    requires 0 <= i < |name| && IsSymbolOrSpace(name[i]) && name[i] != ' '
    ensures !TextNameRules(name)
  {
    CharacterInTrim(name, i);
    InvalidCharactersAreSymbols(name[i]);
    ContainsInvalidCharacterShared(Trim(name), InvalidTextChannelCharacters);
  }

  /** The dash rule looks at the untrimmed name while the character rule
      looks at the trimmed one: behind leading white space a dash passes. */
  lemma LeadingSpaceHidesDash(w: string, name: string)
    requires |w| >= 1 && AllWhiteSpace(w)
    requires forall i :: 0 <= i < |name| ==> !IsSymbolOrSpace(name[i]) && !IsUpper(name[i])
    ensures TextNameRules(w + name)
  {
    assert Trim(w + name) == Trim(name) by {
      assert w + name == w + name + "";
      TrimPadded(w, name, "");
    }
    NoForbiddenCharacter(name);
    assert IsLowerCase(w + name) by {
      forall i | 0 <= i < |w + name| ensures !IsUpper((w + name)[i]) {
        if i < |w| {
          assert IsWhiteSpace(w[i]);
        } else {
          assert (w + name)[i] == name[i - |w|];
        }
      }
    }
  }

  lemma LeadingSpaceDashExample()
    ensures ValidateInput(Str(" -a"), Str("text")) == Ok(true)
  {
    assert TextNameRules(" -a") by {
      LeadingSpaceHidesDash(" ", "-a");
      assert " " + "-a" == " -a";
    }
  }

  // Cases of test/check-channel-name.test.ts.

  lemma HundredLettersValid()
    ensures ValidateInput(Str(seq(100, _ => 'a')), Str("text")) == Ok(true)
  {
    assert TextNameRules(seq(100, _ => 'a')) by {
      TextNameAccepted(seq(100, _ => 'a'));
    }
  }

  lemma HundredOneSpacesInvalid()
    ensures ValidateInput(Str(seq(101, _ => ' ')), Str("text")) == Ok(false)
  {
  }

  lemma SymbolInvalid()
    ensures ValidateInput(Str("!"), Str("text")) == Ok(false)
  {
    assert !TextNameRules("!") by {
      ForbiddenCharacterRejected("!", 0);
    }
  }

  lemma UpperCaseInvalid()
    ensures ValidateInput(Str("AA"), Str("text")) == Ok(false)
  {
    assert IsUpper("AA"[0]);
  }

  lemma AccentedCapitalInvalid()
    ensures ValidateInput(Str("\U{00C9}"), Str("text")) == Ok(false)
  {
    assert IsUpper("\U{00C9}"[0]);
  }

  lemma DashInvalid()
    ensures ValidateInput(Str("-"), Str("text")) == Ok(false)
  {
  }

  lemma EmojiValid()
    ensures ValidateInput(Str("\U{1F60A}"), Str("text")) == Ok(true)
  {
    assert TextNameRules("\U{1F60A}") by {
      TextNameAccepted("\U{1F60A}");
    }
  }

  lemma SpacesAcceptedOutsideText()
    ensures ValidateInput(Str("!"), Str("voice")) == Ok(true)
    ensures ValidateInput(Str("a b"), Str("voice")) == Ok(true)
    ensures ValidateInput(Str("a b"), Str("thread")) == Ok(true)
    ensures ValidateInput(Str("a b"), Str("category")) == Ok(true)
  {
  }
}
