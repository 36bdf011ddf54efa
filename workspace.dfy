/**
 * The notes, folders and chat messages that the routes update: partial
 * updates of a note or a folder from the keys present in the request
 * body, deleting a folder (its notes are unlinked, not deleted), and
 * saving the user's chat message without saving it twice. The tables are
 * maps from id to row and a list of messages in the order they were saved.
 */
module Workspace {
  import opened Wrappers

  datatype Note = Note(
    owner: nat,
    folderId: Option<string>,
    title: string,
    content: Option<string>,
    color: Option<string>,
    icon: Option<string>,
    hiddenFromTopBar: bool)

  datatype Folder = Folder(owner: nat, name: string, color: Option<string>, icon: Option<string>)

  /**
   * The keys of an update body: `None` when the key is absent; for a
   * nullable column the value may itself be null.
   */
  datatype NotePatch = NotePatch(
    title: Option<string>,
    content: Option<Option<string>>,
    color: Option<Option<string>>,
    icon: Option<Option<string>>,
    folderId: Option<Option<string>>,
    hiddenFromTopBar: Option<bool>)

  datatype FolderPatch = FolderPatch(name: Option<string>, color: Option<Option<string>>, icon: Option<Option<string>>)

  /** The value sent for a key, or the old value when the key is absent. */
  function Pick<T>(sent: Option<T>, current: T): T {
    if sent.Some? then sent.value else current
  }

  /** The note after `update_note`: each field present in the body is replaced. */
  function PatchNote(n: Note, p: NotePatch): (r: Note)
    ensures r.owner == n.owner
  {
    Note(n.owner, Pick(p.folderId, n.folderId), Pick(p.title, n.title), Pick(p.content, n.content),
      Pick(p.color, n.color), Pick(p.icon, n.icon), Pick(p.hiddenFromTopBar, n.hiddenFromTopBar))
  }

  /** The folder after `update_folder`. */
  function PatchFolder(f: Folder, p: FolderPatch): (r: Folder)
    ensures r.owner == f.owner
  {
    Folder(f.owner, Pick(p.name, f.name), Pick(p.color, f.color), Pick(p.icon, f.icon))
  }

  /** The later body's keys win over the earlier one's. */
  function Then<T>(first: Option<T>, second: Option<T>): Option<T> {
    if second.Some? then second else first
  }

  function ThenNotePatch(p: NotePatch, q: NotePatch): NotePatch {
    NotePatch(Then(p.title, q.title), Then(p.content, q.content), Then(p.color, q.color),
      Then(p.icon, q.icon), Then(p.folderId, q.folderId), Then(p.hiddenFromTopBar, q.hiddenFromTopBar))
  }

  const EmptyNotePatch := NotePatch(None, None, None, None, None, None)

  /** A body with none of the keys changes nothing. */
  lemma EmptyNotePatchKeepsNote(n: Note)
    ensures PatchNote(n, EmptyNotePatch) == n
  {
  }

  /** Sending the same body twice is sending it once. */
  lemma PatchNoteIdempotent(n: Note, p: NotePatch)
    ensures PatchNote(PatchNote(n, p), p) == PatchNote(n, p)
  {
  }

  /** Two updates in a row are one update with the later keys taking precedence. */
  lemma PatchNoteThen(n: Note, p: NotePatch, q: NotePatch)
    ensures PatchNote(PatchNote(n, p), q) == PatchNote(n, ThenNotePatch(p, q))
  {
  }

  /** A folder body with none of the keys changes nothing, and sending it twice is sending it once. */
  lemma PatchFolderLaws(f: Folder, p: FolderPatch)
    ensures PatchFolder(f, FolderPatch(None, None, None)) == f
    ensures PatchFolder(PatchFolder(f, p), p) == PatchFolder(f, p)
  {
  }

  /** Every note that referenced `folder` loses its folder; every other note is kept as it is. */
  function UnlinkFolder(notes: map<string, Note>, folder: string): (r: map<string, Note>)
    ensures r.Keys == notes.Keys
  {
    map id | id in notes :: if notes[id].folderId == Some(folder) then notes[id].(folderId := None) else notes[id]
  }

  /** After unlinking, no note refers to the folder, no note is lost and only the folder link changed. */
  lemma UnlinkFolderExactly(notes: map<string, Note>, folder: string)
    ensures forall id :: id in UnlinkFolder(notes, folder) ==> UnlinkFolder(notes, folder)[id].folderId != Some(folder)
    ensures forall id :: id in notes ==>
      UnlinkFolder(notes, folder)[id] == notes[id].(folderId := UnlinkFolder(notes, folder)[id].folderId)
    ensures forall id :: id in notes && notes[id].folderId != Some(folder) ==> UnlinkFolder(notes, folder)[id] == notes[id]
  {
  }

  /** The field assignments of `update_note`, one per key present in the body. */
  method ApplyNotePatch(n: Note, patch: NotePatch) returns (note: Note)
    ensures note == PatchNote(n, patch)
  {
    note := n;
    if patch.title.Some? {
      note := note.(title := patch.title.value);
    }
    if patch.content.Some? {
      note := note.(content := patch.content.value);
    }
    if patch.color.Some? {
      note := note.(color := patch.color.value);
    }
    if patch.icon.Some? {
      note := note.(icon := patch.icon.value);
    }
    if patch.folderId.Some? {
      note := note.(folderId := patch.folderId.value);
    }
    if patch.hiddenFromTopBar.Some? {
      note := note.(hiddenFromTopBar := patch.hiddenFromTopBar.value);
    }
  }

  // ------------------------------------------------------------ chat messages

  datatype Sender = User | Assistant

  datatype ChatMessage = ChatMessage(noteId: string, sender: Sender, text: string)

  /** No user message of the note was saved after position `i`. */
  predicate NoUserMessageAfter(chats: seq<ChatMessage>, noteId: string, i: int) {
    forall j :: 0 <= j < |chats| && i < j ==> !(chats[j].noteId == noteId && chats[j].sender == User)
  }

  /** The text of the note's most recently saved user message. */
  function LastUserText(chats: seq<ChatMessage>, noteId: string): (r: Option<string>)
    ensures r.Some? ==> exists i ::
      0 <= i < |chats| && chats[i] == ChatMessage(noteId, User, r.value) && NoUserMessageAfter(chats, noteId, i)
    ensures r.None? ==> NoUserMessageAfter(chats, noteId, -1)
  {
    if chats == [] then None
    else
      var m := chats[|chats| - 1];
      if m.noteId == noteId && m.sender == User then Some(m.text)
      else
        var front := chats[..|chats| - 1];
        var r := LastUserText(front, noteId);
        assert forall i :: -1 <= i < |front| && NoUserMessageAfter(front, noteId, i) ==>
          NoUserMessageAfter(chats, noteId, i);
        r
  }

  /** `chat_respond` saves the user's message unless it equals the note's last user message. */
  function RecordUserMessage(chats: seq<ChatMessage>, noteId: string, text: string): seq<ChatMessage> {
    if LastUserText(chats, noteId) == Some(text) then chats else chats + [ChatMessage(noteId, User, text)]
  }

  lemma LastUserTextOfAppended(chats: seq<ChatMessage>, m: ChatMessage, noteId: string)
    ensures LastUserText(chats + [m], noteId) ==
      if m.noteId == noteId && m.sender == User then Some(m.text) else LastUserText(chats, noteId)
  {
    assert (chats + [m])[..|chats|] == chats;
  }

  /** After recording, the note's last user message is the one just sent, and other notes are unaffected. */
  lemma RecordUserMessageIsLast(chats: seq<ChatMessage>, noteId: string, text: string, other: string)
    requires other != noteId
    ensures LastUserText(RecordUserMessage(chats, noteId, text), noteId) == Some(text)
    ensures LastUserText(RecordUserMessage(chats, noteId, text), other) == LastUserText(chats, other)
  {
    LastUserTextOfAppended(chats, ChatMessage(noteId, User, text), noteId);
    LastUserTextOfAppended(chats, ChatMessage(noteId, User, text), other);
  }

  /** Recording the same message twice is recording it once. */
  lemma RecordUserMessageIdempotent(chats: seq<ChatMessage>, noteId: string, text: string)
    ensures RecordUserMessage(RecordUserMessage(chats, noteId, text), noteId, text) == RecordUserMessage(chats, noteId, text)
  {
    LastUserTextOfAppended(chats, ChatMessage(noteId, User, text), noteId);
  }

  /**
   * `chat_decide` saves the message unconditionally; a following
   * `chat_respond` with the same message then does not save it again.
   */
  lemma DecideThenRespondSavesOnce(chats: seq<ChatMessage>, noteId: string, text: string)
    ensures var decided := chats + [ChatMessage(noteId, User, text)];
      RecordUserMessage(decided, noteId, text) == decided
  {
    LastUserTextOfAppended(chats, ChatMessage(noteId, User, text), noteId);
  }

  // ------------------------------------------------------------ the store

  /** The note, folder and chat tables. */
  class Store {
    var notes: map<string, Note>
    var folders: map<string, Folder>
    var chats: seq<ChatMessage>

    constructor()
      ensures notes == map[] && folders == map[] && chats == []
    {
      notes := map[];
      folders := map[];
      chats := [];
    }

    /** `update_note`: only the owner's note is found; each key present in the body replaces its field. */
    method UpdateNote(user: nat, id: string, patch: NotePatch) returns (found: bool)
      modifies this
      ensures found <==> id in old(notes) && old(notes)[id].owner == user
      ensures found ==> notes == old(notes)[id := PatchNote(old(notes)[id], patch)]
      ensures !found ==> notes == old(notes)
      ensures folders == old(folders) && chats == old(chats)
    {
      if id !in notes || notes[id].owner != user {
        return false;
      }
      var note := ApplyNotePatch(notes[id], patch);
      notes := notes[id := note];
      return true;
    }

    /** `update_folder`: the same rule for a folder's name, color and icon. */
    method UpdateFolder(user: nat, id: string, patch: FolderPatch) returns (found: bool)
      modifies this
      ensures found <==> id in old(folders) && old(folders)[id].owner == user
      ensures found ==> folders == old(folders)[id := PatchFolder(old(folders)[id], patch)]
      ensures !found ==> folders == old(folders)
      ensures notes == old(notes) && chats == old(chats)
    {
      if id !in folders || folders[id].owner != user {
        return false;
      }
      var folder := folders[id];
      if patch.name.Some? {
        folder := folder.(name := patch.name.value);
      }
      if patch.color.Some? {
        folder := folder.(color := patch.color.value);
      }
      if patch.icon.Some? {
        folder := folder.(icon := patch.icon.value);
      }
      folders := folders[id := folder];
      return true;
    }

    /**
     * `delete_folder`: the owner's folder is removed after every note
     * referring to it, whoever owns the note, is unlinked.
     */
    method DeleteFolder(user: nat, id: string) returns (found: bool)
      modifies this
      ensures found <==> id in old(folders) && old(folders)[id].owner == user
      ensures found ==> notes == UnlinkFolder(old(notes), id) && folders == old(folders) - {id}
      ensures !found ==> notes == old(notes) && folders == old(folders)
      ensures chats == old(chats)
    {
      if id !in folders || folders[id].owner != user {
        return false;
      }
      notes := UnlinkFolder(notes, id);
      folders := folders - {id};
      return true;
    }

    /** `chat_decide` saves the user's message as it is. */
    method SaveUserMessage(noteId: string, text: string)
      modifies this
      ensures chats == old(chats) + [ChatMessage(noteId, User, text)]
      ensures notes == old(notes) && folders == old(folders)
    {
      chats := chats + [ChatMessage(noteId, User, text)];
    }

    /** `chat_respond` saves the user's message if it is not the note's last user message. */
    method SaveUserMessageIfNew(noteId: string, text: string) returns (saved: bool)
      modifies this
      ensures saved <==> LastUserText(old(chats), noteId) != Some(text)
      ensures chats == RecordUserMessage(old(chats), noteId, text)
      ensures notes == old(notes) && folders == old(folders)
    {
      var last := LastUserText(chats, noteId);
      saved := last.None? || last.value != text;
      if saved {
        chats := chats + [ChatMessage(noteId, User, text)];
      }
    }
  }
}
