/**
 * The code snippet editor panels of the main area: the panel id derived from
 * a snippet id, the panel title, the open-once policy of the
 * `jp-codeSnippet-editor:open` command, and the two projections the layout
 * restorer uses to reopen an editor after a reload.
 *
 * The host shell and the editor tracker are modelled by one `Shell` object:
 * the widgets of the main area in tab order, the editors the tracker holds in
 * the order they were added, and the id of the widget last activated. An
 * editor's object identity is a handle that the shell hands out once.
 */
module SnippetEditor {
  import opened Wrappers
  import Decimal

  const EditorIdPrefix: string := "jp-codeSnippet-editor-"
  const NewSnippetTitle: string := "New Code Snippet"

  /** What the editor knows of a snippet, and what the open command receives. */
  datatype Metadata = Metadata(
    name: string,
    description: string,
    language: string,
    code: seq<string>,
    id: int,
    selectedTags: seq<string>,
    allTags: seq<string>)

  /** The serialisable arguments the restorer stores for an open editor. */
  datatype RestoreArgs = RestoreArgs(
    name: string,
    description: string,
    language: string,
    code: seq<string>,
    id: int,
    selectedTags: seq<string>,
    allTags: seq<string>)

  /** A snippet editor panel: its handle (object identity), panel id, tab label and metadata. */
  datatype Editor = Editor(handle: nat, id: string, title: string, metadata: Metadata)

  /** A widget of the main area: a snippet editor or any other panel (a notebook, a file editor). */
  datatype Widget = EditorPanel(editor: Editor) | OtherPanel(handle: nat, otherId: string)
  {
    function Id(): string
    {
      match this
      case EditorPanel(e) => e.id
      case OtherPanel(_, id) => id
    }

    function Handle(): nat
    {
      match this
      case EditorPanel(e) => e.handle
      case OtherPanel(h, _) => h
    }
  }

  /** The panel id of the editor for snippet `id`. */
  function PanelId(id: int): (r: string)
    ensures |r| > |EditorIdPrefix| && r[..|EditorIdPrefix|] == EditorIdPrefix
  {
    EditorIdPrefix + Decimal.IntToString(id)
  }

  /** Distinct snippets get distinct panel ids. */
  lemma PanelIdInjective(a: int, b: int)
    requires PanelId(a) == PanelId(b)
    ensures a == b
  {
    assert Decimal.IntToString(a) == PanelId(a)[|EditorIdPrefix|..];
    assert Decimal.IntToString(b) == PanelId(b)[|EditorIdPrefix|..];
    Decimal.IntToStringInjective(a, b);
  }

  /** The tab label of an editor: a fixed title for an unnamed snippet, else "[language] name". */
  function Title(name: string, language: string): (r: string)
    ensures r == NewSnippetTitle <==> name == []
    ensures name != [] ==>
      |r| == |language| + |name| + 3 && r[0] == '[' && r[1..|language| + 1] == language
      && r[|language| + 1..|language| + 3] == "] " && r[|r| - |name|..] == name
  {
    if name == [] then NewSnippetTitle
    else
      var r := "[" + language + "] " + name;
      assert r[0] != NewSnippetTitle[0];
      r
  }

  /** The `args` projection of the restorer: the editor's metadata, field by field. */
  function RestoreArgsOf(e: Editor): (args: RestoreArgs)
    ensures MetadataOf(args) == e.metadata
  {
    var m := e.metadata;
    RestoreArgs(m.name, m.description, m.language, m.code, m.id, m.selectedTags, m.allTags)
  }

  /** The `name` projection of the restorer: the editor's widget id. */
  function RestoreName(e: Editor): (name: string)
    ensures WellFormed(e) ==> name == PanelId(e.metadata.id)
  {
    e.id
  }

  /** The open command reading stored arguments as snippet metadata. */
  function MetadataOf(args: RestoreArgs): (m: Metadata)
    ensures m.name == args.name && m.description == args.description && m.language == args.language
    ensures m.code == args.code && m.id == args.id
    ensures m.selectedTags == args.selectedTags && m.allTags == args.allTags
  {
    Metadata(args.name, args.description, args.language, args.code, args.id, args.selectedTags, args.allTags)
  }

  /** An editor as the open command builds it: its id and title come from its metadata. */
  predicate WellFormed(e: Editor)
  {
    e.id == PanelId(e.metadata.id) && e.title == Title(e.metadata.name, e.metadata.language)
  }

  /**
   * Restoring an editor reopens the same snippet: the stored arguments carry
   * the metadata unchanged, and reopening from them yields the restore name
   * as panel id and the same label.
   */
  lemma RestoreRoundTrip(e: Editor)
    requires WellFormed(e)
    ensures MetadataOf(RestoreArgsOf(e)) == e.metadata
    ensures PanelId(MetadataOf(RestoreArgsOf(e)).id) == RestoreName(e)
    ensures Title(RestoreArgsOf(e).name, RestoreArgsOf(e).language) == e.title
  {
  }

  predicate HasId(ws: seq<Widget>, id: string)
  {
    exists k :: 0 <= k < |ws| && ws[k].Id() == id
  }

  predicate DistinctIds(ws: seq<Widget>)
  {
    forall i, j :: 0 <= i < j < |ws| ==> ws[i].Id() != ws[j].Id()
  }

  /** Number of widgets with the given id. */
  function CountId(ws: seq<Widget>, id: string): nat
  {
    if ws == [] then 0 else (if ws[0].Id() == id then 1 else 0) + CountId(ws[1..], id)
  }

  /** Among widgets with distinct ids, an id occurs once if present and otherwise not at all. */
  lemma {:induction false} CountIdDistinct(ws: seq<Widget>, id: string)
    requires DistinctIds(ws)
    ensures CountId(ws, id) == if HasId(ws, id) then 1 else 0
    decreases |ws|
  {
    if ws != [] {
      var rest := ws[1..];
      assert DistinctIds(rest) by {
        forall i, j | 0 <= i < j < |rest| ensures rest[i].Id() != rest[j].Id() {
          assert rest[i] == ws[i + 1] && rest[j] == ws[j + 1];
        }
      }
      CountIdDistinct(rest, id);
      assert HasId(ws, id) <==> ws[0].Id() == id || HasId(rest, id) by {
        if HasId(ws, id) && ws[0].Id() != id {
          var k :| 0 <= k < |ws| && ws[k].Id() == id;
          assert rest[k - 1] == ws[k];
        }
      }
    }
  }

  /** `find` over the main-area widgets: the first widget with the given id, if any. */
  function Find(ws: seq<Widget>, id: string): (r: Option<Widget>)
    ensures r.Some? <==> HasId(ws, id)
    ensures r.Some? ==> exists k :: (0 <= k < |ws| && ws[k] == r.value && ws[k].Id() == id
      && forall j :: 0 <= j < k ==> ws[j].Id() != id)
    decreases |ws|
  {
    if ws == [] then None
    else if ws[0].Id() == id then Some(ws[0])
    else
      var r := Find(ws[1..], id);
      if r.Some? then
        assert exists k :: (1 <= k < |ws| && ws[k] == r.value && ws[k].Id() == id
          && forall j :: 0 <= j < k ==> ws[j].Id() != id) by {
          var k :| 0 <= k < |ws[1..]| && ws[1..][k] == r.value && ws[1..][k].Id() == id
            && forall j :: 0 <= j < k ==> ws[1..][j].Id() != id;
          assert ws[k + 1] == ws[1..][k];
          assert forall j :: 1 <= j < k + 1 ==> ws[j] == ws[1..][j - 1];
        }
        r
      else
        None
  }

  /**
   * The shell's invariant over its state: main-area ids are distinct, every
   * handle was handed out, the tracker holds each panel id at most once and
   * only editors that are in the main area, and every editor in the main
   * area was built from its metadata.
   */
  predicate ShellInvariant(main: seq<Widget>, tracked: seq<Editor>, nextHandle: nat)
  {
    && DistinctIds(main)
    && (forall k :: 0 <= k < |main| ==> main[k].Handle() < nextHandle)
    && (forall i, j :: 0 <= i < j < |tracked| ==> tracked[i].id != tracked[j].id)
    && (forall k :: 0 <= k < |tracked| ==> EditorPanel(tracked[k]) in main)
    && (forall k :: 0 <= k < |main| && main[k].EditorPanel? ==> WellFormed(main[k].editor))
  }

  /** Appending a widget whose id is new keeps the ids distinct and makes the id occur once. */
  lemma AppendNewId(main: seq<Widget>, w: Widget)
    requires DistinctIds(main) && !HasId(main, w.Id())
    ensures w !in main
    ensures DistinctIds(main + [w])
    ensures HasId(main + [w], w.Id()) && CountId(main + [w], w.Id()) == 1
  {
    var main' := main + [w];
    forall k | 0 <= k < |main| ensures main[k] != w {
      assert main[k].Id() != w.Id();
    }
    assert main'[|main|] == w;
    forall i, j | 0 <= i < j < |main'| ensures main'[i].Id() != main'[j].Id() {
      assert main'[i] == main[i];
      if j < |main| {
        assert main'[j] == main[j];
      }
    }
    CountIdDistinct(main', w.Id());
  }

  /**
   * A fresh, well-formed editor whose id is not yet in the main area is
   * neither tracked nor attached, and tracking and attaching it keeps the
   * invariant, with its id then occurring exactly once in the main area.
   */
  lemma AddEditorKeepsInvariant(main: seq<Widget>, tracked: seq<Editor>, nextHandle: nat, e: Editor)
    requires ShellInvariant(main, tracked, nextHandle)
    requires !HasId(main, e.id) && e.handle == nextHandle && WellFormed(e)
    ensures e !in tracked && EditorPanel(e) !in main
    ensures ShellInvariant(main + [EditorPanel(e)], tracked + [e], nextHandle + 1)
    ensures HasId(main + [EditorPanel(e)], e.id) && CountId(main + [EditorPanel(e)], e.id) == 1
  {
    var w := EditorPanel(e);
    var main' := main + [w];
    var tracked' := tracked + [e];
    AppendNewId(main, w);
    forall k | 0 <= k < |tracked| ensures tracked[k] != e {
      assert EditorPanel(tracked[k]) in main;
    }
    forall i, j | 0 <= i < j < |tracked'| ensures tracked'[i].id != tracked'[j].id {
      assert tracked'[i] == tracked[i];
      if j == |tracked| {
        assert EditorPanel(tracked[i]) in main;
        assert EditorPanel(tracked[i]).Id() == tracked[i].id;
      } else {
        assert tracked'[j] == tracked[j];
      }
    }
    forall k | 0 <= k < |tracked'| ensures EditorPanel(tracked'[k]) in main' {
      if k < |tracked| {
        assert tracked'[k] == tracked[k];
      } else {
        assert main'[|main|] == w;
      }
    }
    forall k | 0 <= k < |main'| ensures main'[k].Handle() < nextHandle + 1 {
      if k < |main| {
        assert main'[k] == main[k];
      }
    }
    forall k | 0 <= k < |main'| && main'[k].EditorPanel? ensures WellFormed(main'[k].editor) {
      if k < |main| {
        assert main'[k] == main[k];
      }
    }
  }

  class Shell {
    var main: seq<Widget>
    var tracked: seq<Editor>
    var active: Option<string>
    var nextHandle: nat

    ghost predicate Valid()
      reads this
    {
      ShellInvariant(main, tracked, nextHandle)
    }

    /** A shell whose main area holds other panels with the given distinct ids. */
    constructor (others: seq<string>)
      requires forall i, j :: 0 <= i < j < |others| ==> others[i] != others[j]
      ensures Valid()
      ensures main == seq(|others|, k requires 0 <= k < |others| => OtherPanel(k, others[k]))
      ensures tracked == [] && active == None
    {
      main := seq(|others|, k requires 0 <= k < |others| => OtherPanel(k, others[k]));
      tracked := [];
      active := None;
      nextHandle := |others|;
    }

    /**
     * `openCodeSnippetEditor`: activate the panel of the snippet if one is
     * open; otherwise build an editor for it, have the tracker hold it, add it
     * to the main area and activate it.
     */
    method Open(args: Metadata)
      requires Valid()
      modifies this
      ensures Valid()
      ensures active == Some(PanelId(args.id)) && HasId(main, PanelId(args.id))
      ensures old(HasId(main, PanelId(args.id))) ==>
        main == old(main) && tracked == old(tracked) && nextHandle == old(nextHandle)
      ensures !old(HasId(main, PanelId(args.id))) ==>
        var e := Editor(old(nextHandle), PanelId(args.id), Title(args.name, args.language), args);
        main == old(main) + [EditorPanel(e)] && tracked == old(tracked) + [e]
        && nextHandle == old(nextHandle) + 1
      ensures CountId(main, PanelId(args.id)) == 1
    {
      var widgetId := PanelId(args.id);
      var openEditor := Find(main, widgetId);
      if openEditor.Some? {
        active := Some(widgetId);
        CountIdDistinct(main, widgetId);
        return;
      }
      var editor := Editor(nextHandle, widgetId, Title(args.name, args.language), args);
      AddEditorKeepsInvariant(main, tracked, nextHandle, editor);
      nextHandle := nextHandle + 1;
      if editor !in tracked {
        tracked := tracked + [editor];
      }
      if EditorPanel(editor) !in main {
        main := main + [EditorPanel(editor)];
      }
      active := Some(editor.id);
    }
  }

  /** Opening the same snippet twice creates one editor panel, not two. */
  method OpenTwice(others: seq<string>, args: Metadata) returns (created: int)
    requires forall i, j :: 0 <= i < j < |others| ==> others[i] != others[j]
    requires PanelId(args.id) !in others
    ensures created == 1
  {
    var shell := new Shell(others);
    assert !HasId(shell.main, PanelId(args.id));
    shell.Open(args);
    shell.Open(args);
    created := |shell.main| - |others|;
  }

  /** Every editor the tracker holds would be reopened, from its restore args, under its restore name. */
  lemma TrackedEditorsRestore(s: Shell)
    requires s.Valid()
    ensures forall k :: 0 <= k < |s.tracked| ==>
      MetadataOf(RestoreArgsOf(s.tracked[k])) == s.tracked[k].metadata
      && PanelId(RestoreArgsOf(s.tracked[k]).id) == RestoreName(s.tracked[k])
  {
    forall k | 0 <= k < |s.tracked|
      ensures PanelId(RestoreArgsOf(s.tracked[k]).id) == RestoreName(s.tracked[k])
    {
      var i :| 0 <= i < |s.main| && s.main[i] == EditorPanel(s.tracked[k]);
      assert WellFormed(s.main[i].editor);
    }
  }
}
