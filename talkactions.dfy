// Talk actions (lua/creature/talkaction.cpp): the registry of scripted chat commands, the match of
// a said text against one command word, and the scan over the registry in key order.
//
// The registry is a std::map, modelled as its entries in ascending key order. The Lua callback
// executeSay is a parameter: the answer the script gives for an action, the said text and
// the parameter.
module TalkActions {
  import opened Ints
  import opened Wrappers
  import opened Text

  datatype TalkAction = TalkAction(words: string, groupType: uint8, separator: string, scriptId: int32)

  type Entry = (string, TalkAction)

  /** The answer executeSay gives for an action, the said text and the parameter. */
  type SayOracle = (TalkAction, string, string) -> bool

  datatype TalkActionResult = TalkactionContinue | TalkactionBreak

  // ---------------------------------------------------------------- key order

  /** std::string's `<`: lexicographic on character codes, a proper prefix first. */
  predicate Less(a: string, b: string) {
    if a == [] then b != []
    else if b == [] then false
    else if a[0] != b[0] then a[0] < b[0]
    else Less(a[1..], b[1..])
  }

  lemma LessIrreflexive(a: string)
    ensures !Less(a, a)
  {
  }

  lemma {:induction false} LessTransitive(a: string, b: string, c: string)
    requires Less(a, b) && Less(b, c)
    ensures Less(a, c)
  {
    if a != [] && a[0] == b[0] && b[0] == c[0] {
      LessTransitive(a[1..], b[1..], c[1..]);
    }
  }

  lemma {:induction false} LessTotal(a: string, b: string)
    requires a != b
    ensures Less(a, b) || Less(b, a)
  {
    if a != [] && b != [] && a[0] == b[0] {
      assert a == [a[0]] + a[1..] && b == [b[0]] + b[1..];
      LessTotal(a[1..], b[1..]);
    }
  }

  lemma LessAsymmetric(a: string, b: string)
    requires Less(a, b)
    ensures !Less(b, a)
  {
    if Less(b, a) {
      LessTransitive(a, b, a);
      LessIrreflexive(a);
    }
  }

  /** What a std::map keeps: each key below the next one. */
  ghost predicate Sorted(entries: seq<Entry>) {
    forall i :: 0 <= i < |entries| - 1 ==> Less(entries[i].0, entries[i + 1].0)
  }

  /** The map the entries stand for. */
  function AsMap(entries: seq<Entry>): map<string, TalkAction>
    decreases |entries|
  {
    if entries == [] then map[]
    else AsMap(entries[1..])[entries[0].0 := entries[0].1]
  }

  /** try_emplace: insert at the key's place in order unless the key is present. */
  function Emplace(entries: seq<Entry>, key: string, action: TalkAction): (r: (bool, seq<Entry>))
    ensures r.1 != []
    ensures entries == [] || Less(key, entries[0].0) ==> r.1[0] == (key, action)
    ensures entries != [] && !Less(key, entries[0].0) ==> r.1[0] == entries[0]
    decreases |entries|
  {
    if entries == [] then (true, [(key, action)])
    else if entries[0].0 == key then LessIrreflexive(key); (false, entries)
    else if Less(key, entries[0].0) then (true, [(key, action)] + entries)
    else
      var (inserted, rest) := Emplace(entries[1..], key, action);
      (inserted, [entries[0]] + rest)
  }

  /** A key below the first of sorted entries is below all of them, so it is not stored. */
  lemma {:induction false} BelowHead(entries: seq<Entry>, key: string)
    requires Sorted(entries) && entries != [] && Less(key, entries[0].0)
    ensures key !in AsMap(entries)
    decreases |entries|
  {
    if |entries| > 1 {
      LessTransitive(key, entries[0].0, entries[1].0);
      BelowHead(entries[1..], key);
    }
    LessIrreflexive(key);
  }

  /** Emplacing keeps the entries in key order. */
  lemma {:induction false} EmplaceSorted(entries: seq<Entry>, key: string, action: TalkAction)
    requires Sorted(entries)
    ensures Sorted(Emplace(entries, key, action).1)
    decreases |entries|
  {
    if entries != [] && entries[0].0 != key {
      if Less(key, entries[0].0) {
        var r := [(key, action)] + entries;
        assert forall i :: 1 <= i < |r| - 1 ==> r[i] == entries[i - 1] && r[i + 1] == entries[i];
      } else {
        LessTotal(key, entries[0].0);
        var tail := entries[1..];
        EmplaceSorted(tail, key, action);
        var rest := Emplace(tail, key, action).1;
        var r := [entries[0]] + rest;
        assert forall i :: 1 <= i < |r| - 1 ==> r[i] == rest[i - 1] && r[i + 1] == rest[i];
        assert tail != [] ==> Less(entries[0].0, tail[0].0);
      }
    }
  }

  /** Emplacing adds the key with its action when the key is new, and changes nothing otherwise. */
  lemma {:induction false} EmplaceMap(entries: seq<Entry>, key: string, action: TalkAction)
    requires Sorted(entries)
    ensures var (inserted, r) := Emplace(entries, key, action);
      (inserted <==> key !in AsMap(entries)) &&
      AsMap(r) == (if inserted then AsMap(entries)[key := action] else AsMap(entries))
    decreases |entries|
  {
    if entries != [] && entries[0].0 != key {
      if Less(key, entries[0].0) {
        BelowHead(entries, key);
        assert ([(key, action)] + entries)[1..] == entries;
      } else {
        var tail := entries[1..];
        EmplaceMap(tail, key, action);
        var rest := Emplace(tail, key, action).1;
        assert ([entries[0]] + rest)[1..] == rest;
      }
    }
  }

  /** registerLuaEvent (talkaction.cpp:37-40): true and the action stored exactly when the words
      were not yet registered; an existing registration is kept, and the order is maintained. */
  lemma EmplaceOutcome(entries: seq<Entry>, key: string, action: TalkAction)
    requires Sorted(entries)
    ensures var (inserted, r) := Emplace(entries, key, action);
      Sorted(r) && (inserted <==> key !in AsMap(entries)) &&
      AsMap(r) == (if inserted then AsMap(entries)[key := action] else AsMap(entries))
  {
    EmplaceSorted(entries, key, action);
    EmplaceMap(entries, key, action);
  }

  // ---------------------------------------------------------------- matching one word

  /** std::string::find: the first position where `w` occurs in `s`. */
  function Find(s: string, w: string): Option<nat>
    decreases |s|
  {
    if w <= s then Some(0)
    else if s == [] then None
    else match Find(s[1..], w)
      case None => None
      case Some(k) => Some(k + 1)
  }

  /** Find returns the first occurrence, and None only when there is none. */
  lemma {:induction false} FindMeaning(s: string, w: string)
    ensures var r := Find(s, w);
      (r.Some? ==> r.value + |w| <= |s| && w <= s[r.value..] &&
                   forall i :: 0 <= i < r.value ==> !(w <= s[i..])) &&
      (r.None? ==> forall i :: 0 <= i <= |s| ==> !(w <= s[i..]))
    decreases |s|
  {
    if !(w <= s) && s != [] {
      FindMeaning(s[1..], w);
      forall i | 1 <= i <= |s| ensures s[i..] == s[1..][i - 1..] {
      }
    }
  }

  /** The parameter checkWord passes on: the text after the first occurrence of `word` with the
      leading spaces trimmed, empty when `word` ends the text. */
  function Param(words: string, word: string): string {
    match Find(words, word)
    case Some(p) => if p + |word| < |words| then TrimLeft(words[p + |word|..], ' ') else []
    case None => []
  }

  /** The separator rule: with a separator other than " ", a non-empty parameter must be the
      separator itself, and then loses its first character. */
  function ApplySeparator(param: string, separator: string): Option<string> {
    if separator != " " && param != [] then
      if param != separator then None else Some(param[1..])
    else Some(param)
  }

  /** checkWord (talkaction.cpp:42-76) for a player of group `groupId`. */
  function CheckWord(groupId: uint16, words: string, word: string, action: TalkAction, executeSay: SayOracle): bool {
    if FirstWord(words) != word then false
    else if groupId < action.groupType as int then false
    else match ApplySeparator(Param(words, word), action.separator)
      case None => false
      case Some(param) => executeSay(action, words, param)
  }

  /** A text that starts with `word` has `word` at position 0, and the parameter is the rest of
      the text after the spaces that follow `word`. */
  lemma {:induction false} ParamOfCommand(words: string, word: string)
    requires FirstWord(words) == word
    ensures var p := Param(words, word);
      |word| + |p| <= |words| && words[|words| - |p|..] == p &&
      Repeats(words[|word|..|words| - |p|], ' ') &&
      (p == [] || p[0] != ' ')
  {
    ParamAfterPrefix(words, word);
    RestAfter(words, |word|, Param(words, word));
  }

  /** The trimmed rest after position k is a suffix that follows a run of spaces. */
  lemma {:induction false} RestAfter(words: string, k: nat, p: string)
    requires k <= |words| && p == if k < |words| then TrimLeft(words[k..], ' ') else []
    ensures k + |p| <= |words| && words[|words| - |p|..] == p &&
      Repeats(words[k..|words| - |p|], ' ') && (p == [] || p[0] != ' ')
  {
    if k < |words| {
      TrimmedRest(words, k);
    } else {
      assert words[k..|words| - |p|] == [];
    }
  }

  /** After a prefix, the parameter is the rest of the text with its leading spaces trimmed. */
  lemma {:induction false} ParamAfterPrefix(words: string, word: string)
    requires word <= words
    ensures Param(words, word) == if |word| < |words| then TrimLeft(words[|word|..], ' ') else []
  {
    FindAtStart(words, word);
  }

  lemma {:induction false} FindAtStart(s: string, w: string)
    requires w <= s
    ensures Find(s, w) == Some(0)
  {
  }

  /** Trimming the spaces off the text after position k leaves a suffix of the text. */
  lemma {:induction false} TrimmedRest(words: string, k: nat)
    requires k < |words|
    ensures var p := TrimLeft(words[k..], ' ');
      k + |p| <= |words| && words[|words| - |p|..] == p && Repeats(words[k..|words| - |p|], ' ') &&
      (p == [] || p[0] != ' ')
  {
    var p := TrimLeft(words[k..], ' ');
    SuffixParts(words, k, p);
  }

  /** A part that ends the text after position k, preceded by a run of spaces. */
  lemma SuffixParts(s: string, k: nat, p: string)
    requires k <= |s| && |p| <= |s| - k && p == s[k..][|s| - k - |p|..] && Repeats(s[k..][..|s| - k - |p|], ' ')
    ensures s[|s| - |p|..] == p && Repeats(s[k..|s| - |p|], ' ')
  {
    var m := |s| - k - |p|;
    assert s[k..][m..] == s[k + m..];
    assert s[k..][..m] == s[k..k + m];
  }

  /** checkWord in terms of the spoken text: it rejects unless the text's first word is `word`;
      then `rest` is what follows `word` with its leading spaces trimmed. With the separator " "
      it accepts exactly when the group is high enough and the script accepts `rest`; with any
      other separator `rest` must also be empty or the separator itself, and the script is handed
      "" or the separator without its first character. */
  lemma {:induction false} CheckWordMeaning(groupId: uint16, words: string, word: string, action: TalkAction, executeSay: SayOracle)
    ensures FirstWord(words) != word ==> !CheckWord(groupId, words, word, action, executeSay)
    ensures FirstWord(words) == word && action.separator == " " ==>
      var rest := if |word| < |words| then TrimLeft(words[|word|..], ' ') else [];
      (CheckWord(groupId, words, word, action, executeSay) <==>
        groupId as int >= action.groupType as int && executeSay(action, words, rest))
    ensures FirstWord(words) == word && action.separator != " " ==>
      var rest := if |word| < |words| then TrimLeft(words[|word|..], ' ') else [];
      (CheckWord(groupId, words, word, action, executeSay) <==>
        groupId as int >= action.groupType as int && (rest == [] || rest == action.separator) &&
        executeSay(action, words, if rest == [] then [] else action.separator[1..]))
  {
    if FirstWord(words) == word {
      ParamAfterPrefix(words, word);
    }
  }

  // ---------------------------------------------------------------- the scan

  /** The command words a key stands for: a key with a comma lists several. */
  function Alternatives(key: string): (r: seq<string>)
    ensures ',' !in key ==> r == [key]
  {
    if ',' in key then SplitWords(key) else [key]
  }

  /** Whether alternative `j` of entry `i` accepts the text. */
  predicate Accepts(entries: seq<Entry>, i: nat, j: nat, groupId: uint16, words: string, executeSay: SayOracle) {
    i < |entries| && j < |Alternatives(entries[i].0)| &&
    CheckWord(groupId, words, Alternatives(entries[i].0)[j], entries[i].1, executeSay)
  }

  /** Whether the pair (i, j) comes before (i', j') in the scan. */
  predicate Before(i: nat, j: nat, i': nat, j': nat) {
    i < i' || (i == i' && j < j')
  }

  /** The inner loop of the scan: the first of a key's command words that `accepts` takes. */
  method FirstAcceptedWord(alternatives: seq<string>, accepts: string -> bool) returns (found: Option<nat>)
    ensures found.Some? ==> found.value < |alternatives| && accepts(alternatives[found.value])
    ensures forall j :: 0 <= j < (if found.Some? then found.value else |alternatives|) ==>
      !accepts(alternatives[j])
  {
    var j := 0;
    while j < |alternatives|
      invariant 0 <= j <= |alternatives|
      invariant forall j' :: 0 <= j' < j ==> !accepts(alternatives[j'])
    {
      if accepts(alternatives[j]) {
        return Some(j);
      }
      j := j + 1;
    }
    return None;
  }

  /** The scan's bookkeeping: once the pairs before (i, 0) reject, so do the pairs before
      (i, j) when the first j alternatives of entry i reject. */
  lemma RejectedBefore(entries: seq<Entry>, i: nat, j: nat, groupId: uint16, words: string, executeSay: SayOracle)
    requires i < |entries| && j <= |Alternatives(entries[i].0)|
    requires forall i': nat, j': nat :: Before(i', j', i, 0) ==> !Accepts(entries, i', j', groupId, words, executeSay)
    requires forall j' :: 0 <= j' < j ==>
      !CheckWord(groupId, words, Alternatives(entries[i].0)[j'], entries[i].1, executeSay)
    ensures forall i': nat, j': nat :: Before(i', j', i, j) ==> !Accepts(entries, i', j', groupId, words, executeSay)
    ensures j == |Alternatives(entries[i].0)| ==>
      forall i': nat, j': nat :: Before(i', j', i + 1, 0) ==> !Accepts(entries, i', j', groupId, words, executeSay)
  {
  }

  class TalkActions {
    var talkActions: seq<Entry>

    ghost predicate Valid()
      reads this
    {
      Sorted(talkActions)
    }

    constructor ()
      ensures Valid() && talkActions == []
    {
      talkActions := [];
    }

    method Clear()
      modifies this
      ensures Valid() && talkActions == []
    {
      talkActions := [];
    }

    method RegisterLuaEvent(action: TalkAction) returns (inserted: bool)
      requires Valid()
      modifies this
      ensures Valid()
      ensures (inserted, talkActions) == Emplace(old(talkActions), action.words, action)
    {
      EmplaceOutcome(talkActions, action.words, action);
      var r := Emplace(talkActions, action.words, action);
      inserted := r.0;
      talkActions := r.1;
    }

    /** checkPlayerCanSayTalkAction (talkaction.cpp:78-94): BREAK at the first alternative, in
        key order, whose check accepts; `fired` names it. CONTINUE when none does. */
    method CheckPlayerCanSayTalkAction(groupId: uint16, words: string, executeSay: SayOracle)
      returns (result: TalkActionResult, fired: Option<(nat, nat)>)
      ensures result == TalkactionBreak <==> fired.Some?
      ensures fired.Some? ==> Accepts(talkActions, fired.value.0, fired.value.1, groupId, words, executeSay)
      ensures fired.Some? ==> forall i: nat, j: nat :: Before(i, j, fired.value.0, fired.value.1) ==>
        !Accepts(talkActions, i, j, groupId, words, executeSay)
      ensures fired.None? ==> forall i: nat, j: nat :: !Accepts(talkActions, i, j, groupId, words, executeSay)
    {
      var i := 0;
      while i < |talkActions|
        invariant 0 <= i <= |talkActions|
        invariant forall i': nat, j: nat :: Before(i', j, i, 0) ==> !Accepts(talkActions, i', j, groupId, words, executeSay)
      {
        var alternatives := Alternatives(talkActions[i].0);
        var action := talkActions[i].1;
        var found := FirstAcceptedWord(alternatives, w => CheckWord(groupId, words, w, action, executeSay));
        if found.Some? {
          fired := Some((i, found.value));
          RejectedBefore(talkActions, i, found.value, groupId, words, executeSay);
          return TalkactionBreak, fired;
        }
        RejectedBefore(talkActions, i, |Alternatives(talkActions[i].0)|, groupId, words, executeSay);
        i := i + 1;
      }
      return TalkactionContinue, None;
    }
  }
}
