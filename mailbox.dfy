// What a mailbox admits and to whom it addresses a parcel or a letter
// (items/containers/mailbox/mailbox.cpp). Moving the item to the receiver's inbox, stamping
// it and saving the player are game-world effects and are not modelled.
module Mailbox {
  import opened Ints
  import opened Wrappers
  import opened Text

  // Item ids from the item constants header.
  const ITEM_PARCEL: uint16 := 3503
  const ITEM_LETTER: uint16 := 3505
  const ITEM_LABEL: uint16 := 3507

  /** An item as the mailbox sees it: its id, whether it has an owner, its TEXT attribute ("" when
      unset) and, for a container, the items inside it in order. */
  datatype MailItem = MailItem(id: uint16, hasOwner: bool, text: string, isContainer: bool, children: seq<MailItem>)

  /** A thing dropped on the mailbox: an item, or something else (a creature) whose getItem is null. */
  datatype Thing = ItemThing(item: MailItem) | OtherThing

  datatype ReturnValue = NoError | NotPossible

  /** canSend (mailbox.cpp:150-152). */
  predicate CanSend(item: MailItem) {
    !item.hasOwner && (item.id == ITEM_PARCEL || item.id == ITEM_LETTER)
  }

  /** queryAdd (mailbox.cpp:26-32). */
  function QueryAdd(thing: Thing): (r: ReturnValue)
    ensures r == NoError <==> thing.ItemThing? && !thing.item.hasOwner &&
                              (thing.item.id == 3503 || thing.item.id == 3505)
  {
    if thing.ItemThing? && CanSend(thing.item) then NoError else NotPossible
  }

  /** queryMaxCount (mailbox.cpp:34-37): the count it reports back and its return value. */
  function QueryMaxCount(count: uint32): (r: (ReturnValue, uint32))
    ensures r.0 == NoError
    ensures r.1 >= 1 && r.1 >= count
    ensures count >= 1 ==> r.1 == count
  {
    (NoError, if count < 1 then 1 else count)
  }

  /** queryRemove (mailbox.cpp:39-41): nothing can be taken out of a mailbox. */
  function QueryRemove(thing: Thing, count: uint32): (r: ReturnValue)
    ensures r == NotPossible
  {
    NotPossible
  }

  /** addThing (mailbox.cpp:51-60): the item handed to sendItem, if any; null is ignored. */
  function AddThing(thing: Option<Thing>): (r: Option<MailItem>)
    ensures r.Some? ==> thing == Some(ItemThing(r.value))
  {
    match thing
    case Some(ItemThing(item)) => if CanSend(item) then Some(item) else None
    case _ => None
  }

  /** addThing forwards exactly the things queryAdd admits. */
  lemma AddThingMatchesQueryAdd(thing: Thing)
    ensures AddThing(Some(thing)).Some? <==> QueryAdd(thing) == NoError
    ensures AddThing(None) == None
  {
  }

  // ---------------------------------------------------------------- receiver (getReceiver)

  /** Whether a child of a container names a receiver: a label whose own lookup succeeds. */
  predicate NamesReceiver(child: MailItem) {
    child.id == ITEM_LABEL && Receiver(child).Some?
  }

  /** The receiver getReceiver finds (mailbox.cpp:129-148), None when it returns false. */
  function Receiver(item: MailItem): Option<string>
    decreases item, 1
  {
    if item.isContainer then FirstReceiver(item.children)
    else if item.text == [] then None
    else Some(Trim(FirstLine(item.text)))
  }

  /** The receiver named by the first label among `children` whose lookup succeeds. */
  function FirstReceiver(children: seq<MailItem>): Option<string>
    decreases children, 0
  {
    if children == [] then None
    else if children[0].id == ITEM_LABEL && Receiver(children[0]).Some? then Receiver(children[0])
    else FirstReceiver(children[1..])
  }

  /** A container takes its receiver from the first label child that names one, in order, and
      has none when no label child does. */
  lemma {:induction false} FirstReceiverMeaning(children: seq<MailItem>)
    ensures FirstReceiver(children).None? <==> forall k :: 0 <= k < |children| ==> !NamesReceiver(children[k])
    ensures FirstReceiver(children).Some? ==>
      exists k :: 0 <= k < |children| && NamesReceiver(children[k]) &&
        FirstReceiver(children) == Receiver(children[k]) &&
        forall j :: 0 <= j < k ==> !NamesReceiver(children[j])
  {
    FirstReceiverNone(children);
    if FirstReceiver(children).Some? {
      var k := FirstReceiverAt(children);
    }
  }

  lemma {:induction false} FirstReceiverNone(children: seq<MailItem>)
    ensures FirstReceiver(children).None? <==> forall k :: 0 <= k < |children| ==> !NamesReceiver(children[k])
    decreases |children|
  {
    if children != [] {
      var tail := children[1..];
      FirstReceiverNone(tail);
      if NamesReceiver(children[0]) {
        assert FirstReceiver(children) == Receiver(children[0]);
      } else {
        assert FirstReceiver(children) == FirstReceiver(tail);
        assert forall k :: 1 <= k < |children| ==> children[k] == tail[k - 1];
      }
    }
  }

  /** The index of the first label child that names a receiver. */
  lemma {:induction false} FirstReceiverAt(children: seq<MailItem>) returns (k: nat)
    requires FirstReceiver(children).Some?
    ensures k < |children| && NamesReceiver(children[k]) && FirstReceiver(children) == Receiver(children[k])
    ensures forall j :: 0 <= j < k ==> !NamesReceiver(children[j])
    decreases |children|
  {
    if NamesReceiver(children[0]) {
      k := 0;
    } else {
      var tail := children[1..];
      assert FirstReceiver(children) == FirstReceiver(tail);
      var t := FirstReceiverAt(tail);
      k := t + 1;
      var names := seq(|children|, i requires 0 <= i < |children| => NamesReceiver(children[i]));
      NoneBeforeShift(names, t);
      assert children[k] == tail[t];
    }
  }

  /** A flag that is false at the head and in the first t places of the tail is false in the
      first t + 1 places. */
  lemma NoneBeforeShift(names: seq<bool>, t: nat)
    requires t < |names| - 1 && !names[0] && forall j :: 0 <= j < t ==> !names[1..][j]
    ensures forall j :: 0 <= j < t + 1 ==> !names[j]
  {
    forall j | 0 < j < t + 1
      ensures !names[j]
    {
      assert names[j] == names[1..][j - 1];
    }
  }

  /** A letter or label names its receiver exactly when its text is not empty: the first line of
      the text with the surrounding spaces removed, which is that line itself when it has none. */
  lemma LetterReceiver(item: MailItem)
    requires !item.isContainer
    ensures Receiver(item).None? <==> item.text == []
    ensures Receiver(item).Some? ==> Receiver(item).value == Trim(FirstLine(item.text))
    ensures var line := FirstLine(item.text);
      item.text != [] && (line == [] || (line[0] != ' ' && line[|line| - 1] != ' ')) ==> Receiver(item) == Some(line)
  {
  }

  /** Whatever getReceiver finds, at any depth, is one line with no surrounding spaces. */
  lemma {:induction false} ReceiverIsTrimmedLine(item: MailItem)
    ensures Receiver(item).Some? ==> var n := Receiver(item).value;
      '\n' !in n && (n == [] || (n[0] != ' ' && n[|n| - 1] != ' '))
    decreases item, 1
  {
    if item.isContainer {
      FirstReceiverIsTrimmedLine(item.children);
    } else if item.text != [] {
      var line := FirstLine(item.text);
      TrimKeepsLine(line);
    }
  }

  lemma {:induction false} FirstReceiverIsTrimmedLine(children: seq<MailItem>)
    ensures FirstReceiver(children).Some? ==> var n := FirstReceiver(children).value;
      '\n' !in n && (n == [] || (n[0] != ' ' && n[|n| - 1] != ' '))
    decreases children, 0
  {
    if children != [] {
      if NamesReceiver(children[0]) {
        ReceiverIsTrimmedLine(children[0]);
      } else {
        FirstReceiverIsTrimmedLine(children[1..]);
      }
    }
  }

  /** Trimming spaces cannot bring in a newline. */
  lemma TrimKeepsLine(line: string)
    requires '\n' !in line
    ensures '\n' !in Trim(line)
  {
    var r := TrimRight(line, ' ');
    assert forall i :: 0 <= i < |r| ==> r[i] == line[i];
    var t := TrimLeft(r, ' ');
    assert forall i :: 0 <= i < |t| ==> t[i] == r[|r| - |t| + i];
  }

  /** getReceiver (mailbox.cpp:129-148) with its out-parameter: `name` comes back unchanged when
      no receiver is found. */
  method GetReceiver(item: MailItem, name: string) returns (found: bool, receiver: string)
    ensures found <==> Receiver(item).Some?
    ensures found ==> receiver == Receiver(item).value
    ensures !found ==> receiver == name
    decreases item
  {
    if item.isContainer {
      var i := 0;
      while i < |item.children|
        invariant 0 <= i <= |item.children|
        invariant FirstReceiver(item.children[i..]) == FirstReceiver(item.children)
      {
        var child := item.children[i];
        assert item.children[i..][1..] == item.children[i + 1..];
        if child.id == ITEM_LABEL {
          var ok, r := GetReceiver(child, name);
          if ok {
            return true, r;
          }
        }
        i := i + 1;
      }
      return false, name;
    }
    if item.text == [] {
      return false, name;
    }
    receiver := Trim(FirstLine(item.text));
    found := true;
  }

  /** The guards of sendItem (mailbox.cpp:82-91): the receiver it goes on with, or false when
      getReceiver fails or leaves the name empty. */
  method SendItemReceiver(item: MailItem) returns (proceeds: bool, receiver: string)
    ensures proceeds <==> Receiver(item).Some? && Receiver(item).value != []
    ensures proceeds ==> receiver == Receiver(item).value
  {
    var found;
    found, receiver := GetReceiver(item, []);
    if !found {
      return false, receiver;
    }
    if receiver == [] {
      return false, receiver;
    }
    proceeds := true;
  }

  /** A parcel holding one label is addressed to the label's first line. */
  lemma ParcelWithLabel(tag: MailItem, name: string)
    requires tag.id == ITEM_LABEL && !tag.isContainer && name != [] && '\n' !in name
    requires name[0] != ' ' && name[|name| - 1] != ' '
    requires tag.text == name + "\nhello"
    ensures Receiver(MailItem(ITEM_PARCEL, false, [], true, [tag])) == Some(name)
  {
    LabelFirstLine(tag.text, name);
    LetterReceiver(tag);
    assert Receiver(tag) == Some(name);
    assert FirstReceiver([tag]) == Receiver(tag);
  }

  lemma LabelFirstLine(text: string, name: string)
    requires '\n' !in name && text == name + "\nhello"
    ensures FirstLine(text) == name
  {
    assert text[|name|] == '\n';
    assert forall i :: 0 <= i < |name| ==> text[i] == name[i];
    FirstLineOf(text, |name|);
    assert text[..|name|] == name;
  }

  /** A letter whose text is only spaces names the empty receiver, at which sendItem stops. */
  lemma BlankLetterNamesNobody(item: MailItem)
    requires !item.isContainer && item.text == "  "
    ensures Receiver(item) == Some([])
  {
    assert FirstLine(item.text) == "  ";
    assert TrimRight("  ", ' ') == [];
  }

  /** The first line ends at the first newline. */
  lemma {:induction false} FirstLineOf(s: string, k: nat)
    requires k < |s| && s[k] == '\n' && forall i :: 0 <= i < k ==> s[i] != '\n'
    ensures FirstLine(s) == s[..k]
    decreases k
  {
    if k > 0 {
      FirstLineOf(s[1..], k - 1);
      assert s[..k] == [s[0]] + s[1..][..k - 1];
    }
  }
}
