/**
  The i3 window-manager segments of the status line: the workspace list
  (`workspaces`, tagged by `calcgrp`) and the current binding mode (`mode`).

  The window manager's workspace query is an input sequence here, so every
  segment is a pure function of that snapshot and of the per-render context.
 */
module I3wm {
  import opened Wrappers

  /** One workspace record as reported by the window manager. */
  datatype Workspace = Workspace(name: string, focused: bool, urgent: bool, visible: bool, output: string)

  /** The workspace flags that may be named in `only_show`. */
  datatype Flag = Focused | Urgent | Visible

  /** A rendered segment: its text and its highlight groups, most specific first. */
  datatype Segment = Segment(contents: string, highlightGroups: seq<string>)

  /** The per-render context: an optional output hint and the current binding mode. */
  datatype SegmentInfo = SegmentInfo(output: Option<string>, mode: string)

  function HasFlag(w: Workspace, f: Flag): bool
  {
    match f
    case Focused => w.focused
    case Urgent => w.urgent
    case Visible => w.visible
  }

  /** The highlight group that marks a workspace carrying flag `f`. */
  function GroupOf(f: Flag): string
  {
    match f
    case Focused => "w_focused"
    case Urgent => "w_urgent"
    case Visible => "w_visible"
  }

  /** Position of a group in the tag order: focused, urgent, visible, then the generic group. */
  function Rank(g: string): nat
  {
    if g == "w_focused" then 0
    else if g == "w_urgent" then 1
    else if g == "w_visible" then 2
    else 3
  }

  function CountTrue(w: Workspace): nat
  {
    (if w.focused then 1 else 0) + (if w.urgent then 1 else 0) + (if w.visible then 1 else 0)
  }

  // ---------------------------------------------------------------------------
  // calcgrp
  // ---------------------------------------------------------------------------

  /** The highlight groups of a workspace segment. */
  function CalcGroups(w: Workspace): (r: seq<string>)
    ensures |r| == 1 + CountTrue(w)
    ensures r[|r| - 1] == "workspace"
    ensures forall i :: 0 <= i < |r| - 1 ==> r[i] != "workspace"
    ensures forall f :: GroupOf(f) in r <==> HasFlag(w, f)
    ensures forall i, j :: 0 <= i < j < |r| ==> Rank(r[i]) < Rank(r[j])
  {
    (if w.focused then ["w_focused"] else [])
    + (if w.urgent then ["w_urgent"] else [])
    + (if w.visible then ["w_visible"] else [])
    + ["workspace"]
  }

  /** Reads the three flags back from a list of highlight groups. */
  function FlagsOf(groups: seq<string>): (bool, bool, bool)
  {
    ("w_focused" in groups, "w_urgent" in groups, "w_visible" in groups)
  }

  /** The groups of a workspace determine its flags, and nothing else about it. */
  lemma CalcGroupsRoundTrip(w: Workspace, v: Workspace)
    ensures FlagsOf(CalcGroups(w)) == (w.focused, w.urgent, w.visible)
    ensures CalcGroups(w) == CalcGroups(v) <==> (w.focused, w.urgent, w.visible) == (v.focused, v.urgent, v.visible)
  {
    assert GroupOf(Focused) == "w_focused" && GroupOf(Urgent) == "w_urgent" && GroupOf(Visible) == "w_visible";
    if CalcGroups(w) == CalcGroups(v) {
      assert FlagsOf(CalcGroups(w)) == FlagsOf(CalcGroups(v));
    }
  }

  // ---------------------------------------------------------------------------
  // workspaces
  // ---------------------------------------------------------------------------

  /** Python truthiness of an optional string: both `None` and `""` are unset. */
  predicate IsSet(o: Option<string>)
    ensures IsSet(o) <==> o != None && o != Some("")
  {
    o.Some? && o.value != ""
  }

  /** The `output` argument when it is set, otherwise the context's output hint. */
  function EffectiveOutput(output: Option<string>, info: SegmentInfo): (r: Option<string>)
    ensures IsSet(output) ==> r == output
    ensures !IsSet(output) ==> r == info.output
    ensures IsSet(r) <==> IsSet(output) || IsSet(info.output)
  {
    if IsSet(output) then output else info.output
  }

  /** The `only_show` test: unset or empty keeps everything, otherwise one named flag must hold. */
  predicate ShownByFlags(w: Workspace, onlyShow: Option<seq<Flag>>)
  {
    match onlyShow
    case None => true
    case Some(fs) => |fs| == 0 || exists i :: 0 <= i < |fs| && HasFlag(w, fs[i])
  }

  /** The output test: an unset output keeps everything, otherwise the names must agree. */
  predicate ShownOnOutput(w: Workspace, output: Option<string>)
  {
    !IsSet(output) || w.output == output.value
  }

  predicate Shown(w: Workspace, onlyShow: Option<seq<Flag>>, output: Option<string>)
  {
    ShownByFlags(w, onlyShow) && ShownOnOutput(w, output)
  }

  /** The `only_show` test: no filter when unset or empty, otherwise some named flag must hold. */
  lemma FlagTest(w: Workspace, onlyShow: Option<seq<Flag>>)
    ensures onlyShow == None || onlyShow == Some([]) ==> ShownByFlags(w, onlyShow)
    ensures onlyShow.Some? && |onlyShow.value| > 0 ==>
              (ShownByFlags(w, onlyShow) <==> exists f :: f in onlyShow.value && HasFlag(w, f))
  {
  }

  /** The output test: no filter when the output is unset, otherwise the names must agree. */
  lemma OutputTest(w: Workspace, output: Option<string>)
    ensures !IsSet(output) ==> ShownOnOutput(w, output)
    ensures IsSet(output) ==> (ShownOnOutput(w, output) <==> w.output == output.value)
  {
  }

  /** With neither filter set every workspace is shown; with an output set, only that output's. */
  lemma ShownTest(w: Workspace, onlyShow: Option<seq<Flag>>, output: Option<string>)
    ensures (onlyShow == None || onlyShow == Some([])) && !IsSet(output) ==> Shown(w, onlyShow, output)
    ensures Shown(w, onlyShow, output) && IsSet(output) ==> w.output == output.value
  {
  }

  /** The workspaces that pass both filters, in the order the window manager lists them. */
  function Kept(ws: seq<Workspace>, onlyShow: Option<seq<Flag>>, output: Option<string>): (r: seq<Workspace>)
    ensures |r| <= |ws|
    ensures forall w :: w in r <==> w in ws && Shown(w, onlyShow, output)
  {
    if ws == [] then []
    else
      var rest := Kept(ws[1..], onlyShow, output);
      assert forall w :: w in ws <==> w == ws[0] || w in ws[1..];
      if Shown(ws[0], onlyShow, output) then [ws[0]] + rest else rest
  }

  /** A workspace name with its first `strip` characters removed (all of it when shorter). */
  function StripName(name: string, strip: nat): (r: string)
    ensures |r| == if strip <= |name| then |name| - strip else 0
    ensures name == name[..|name| - |r|] + r
  {
    name[(if strip <= |name| then strip else |name|)..]
  }

  function ToSegment(w: Workspace, strip: nat): Segment
  {
    Segment(StripName(w.name, strip), CalcGroups(w))
  }

  /** The segment of one kept workspace: its stripped name, tagged with groups that record its flags. */
  lemma SegmentOfWorkspace(w: Workspace, strip: nat)
    ensures FlagsOf(ToSegment(w, strip).highlightGroups) == (w.focused, w.urgent, w.visible)
    ensures var g := ToSegment(w, strip).highlightGroups; |g| > 0 && g[|g| - 1] == "workspace"
    ensures var c := ToSegment(w, strip).contents;
            && |c| == (if strip <= |w.name| then |w.name| - strip else 0)
            && w.name == w.name[..|w.name| - |c|] + c
  {
  }

  /**
    The `workspaces` segment over the snapshot `ws` of the window manager's
    workspace list: one segment per workspace that passes the flag and output
    filters.
   */
  function Workspaces(info: SegmentInfo, onlyShow: Option<seq<Flag>>, output: Option<string>, strip: nat,
                      ws: seq<Workspace>): (r: seq<Segment>)
    ensures |r| <= |ws|
    ensures forall s :: s in r ==>
              exists w :: w in ws && Shown(w, onlyShow, EffectiveOutput(output, info)) && s == ToSegment(w, strip)
    ensures forall w :: w in ws && Shown(w, onlyShow, EffectiveOutput(output, info)) ==> ToSegment(w, strip) in r
  {
    var eff := EffectiveOutput(output, info);
    var kept := Kept(ws, onlyShow, eff);
    var r := seq(|kept|, k requires 0 <= k < |kept| => ToSegment(kept[k], strip));
    assert forall s :: s in r ==> exists w :: w in ws && Shown(w, onlyShow, eff) && s == ToSegment(w, strip) by {
      forall s | s in r ensures exists w :: w in ws && Shown(w, onlyShow, eff) && s == ToSegment(w, strip) {
        var k :| 0 <= k < |r| && r[k] == s;
        var w := kept[k];
        assert w in kept;
        assert w in ws && Shown(w, onlyShow, eff) && s == ToSegment(w, strip);
      }
    }
    assert forall w :: w in kept ==> ToSegment(w, strip) in r by {
      forall w | w in kept ensures ToSegment(w, strip) in r {
        var k :| 0 <= k < |kept| && kept[k] == w;
        assert r[k] == ToSegment(w, strip);
      }
    }
    r
  }

  /** `idx` picks `sub` out of `s` in order: `sub[k] == s[idx[k]]` with `idx` strictly increasing. */
  ghost predicate EmbedsAt<T>(sub: seq<T>, s: seq<T>, idx: seq<nat>)
  {
    && |idx| == |sub|
    && (forall k :: 0 <= k < |idx| ==> idx[k] < |s| && sub[k] == s[idx[k]])
    && (forall k, l :: 0 <= k < l < |idx| ==> idx[k] < idx[l])
  }

  /** Every index moved one position to the right. */
  function Shift(idx: seq<nat>): seq<nat>
  {
    seq(|idx|, k requires 0 <= k < |idx| => idx[k] + 1)
  }

  /** An embedding into the tail of `s` becomes one into `s` once shifted. */
  lemma ShiftEmbeds<T>(sub: seq<T>, s: seq<T>, idx: seq<nat>)
    requires |s| > 0 && EmbedsAt(sub, s[1..], idx)
    ensures EmbedsAt(sub, s, Shift(idx))
    ensures 0 !in Shift(idx)
    ensures forall i :: 1 <= i < |s| ==> (i in Shift(idx) <==> i - 1 in idx)
  {
    var shifted := Shift(idx);
    forall k | 0 <= k < |shifted| ensures shifted[k] < |s| && sub[k] == s[shifted[k]] {
      assert sub[k] == s[1..][idx[k]];
    }
    forall i | 1 <= i < |s| ensures i in shifted <==> i - 1 in idx {
      if i in shifted {
        var k :| 0 <= k < |shifted| && shifted[k] == i;
        assert idx[k] == i - 1;
      }
      if i - 1 in idx {
        var k :| 0 <= k < |idx| && idx[k] == i - 1;
        assert shifted[k] == i;
      }
    }
  }

  /** Prepending the head of `s` at position 0 keeps an embedding whose indices all exceed 0. */
  lemma ConsEmbeds<T>(sub: seq<T>, s: seq<T>, idx: seq<nat>)
    requires |s| > 0 && EmbedsAt(sub, s, idx)
    requires forall k :: 0 <= k < |idx| ==> idx[k] > 0
    ensures EmbedsAt([s[0]] + sub, s, [0] + idx)
  {
  }

  /** The positions of `ws` whose workspaces pass both filters, in increasing order. */
  function KeptPositions(ws: seq<Workspace>, onlyShow: Option<seq<Flag>>, output: Option<string>): seq<nat>
  {
    if ws == [] then []
    else (if Shown(ws[0], onlyShow, output) then [0] else []) + Shift(KeptPositions(ws[1..], onlyShow, output))
  }

  /** Filtering keeps exactly the shown positions of `ws`, in their original order. */
  lemma {:induction false} KeptIsOrderedSubsequence(ws: seq<Workspace>, onlyShow: Option<seq<Flag>>,
                                                    output: Option<string>)
    ensures EmbedsAt(Kept(ws, onlyShow, output), ws, KeptPositions(ws, onlyShow, output))
    ensures forall i :: 0 <= i < |ws| ==> (i in KeptPositions(ws, onlyShow, output) <==> Shown(ws[i], onlyShow, output))
  {
    if ws != [] {
      var tail := KeptPositions(ws[1..], onlyShow, output);
      var rest := Kept(ws[1..], onlyShow, output);
      KeptIsOrderedSubsequence(ws[1..], onlyShow, output);
      ShiftEmbeds(rest, ws, tail);
      var shifted := Shift(tail);
      forall i | 1 <= i < |ws| ensures i in shifted <==> Shown(ws[i], onlyShow, output) {
        assert ws[i] == ws[1..][i - 1];
      }
      if Shown(ws[0], onlyShow, output) {
        ConsEmbeds(rest, ws, shifted);
        assert KeptPositions(ws, onlyShow, output) == [0] + shifted;
        assert forall i :: i in [0] + shifted <==> i == 0 || i in shifted;
      } else {
        assert KeptPositions(ws, onlyShow, output) == shifted;
      }
    }
  }

  /**
    The segments are an order-preserving selection of the workspace list:
    segment `k` comes from the workspace at position `idx[k]` and carries
    `calcgrp` of that workspace, and exactly the positions passing both
    filters are chosen.
   */
  lemma WorkspacesIsOrderedSelection(info: SegmentInfo, onlyShow: Option<seq<Flag>>, output: Option<string>,
                                     strip: nat, ws: seq<Workspace>)
    ensures var idx := KeptPositions(ws, onlyShow, EffectiveOutput(output, info));
            var r := Workspaces(info, onlyShow, output, strip, ws);
            && |idx| == |r|
            && (forall k, l :: 0 <= k < l < |idx| ==> idx[k] < idx[l])
            && (forall k :: 0 <= k < |idx| ==>
                  idx[k] < |ws|
                  && r[k].highlightGroups == CalcGroups(ws[idx[k]])
                  && r[k].contents == StripName(ws[idx[k]].name, strip))
            && (forall i :: 0 <= i < |ws| ==> (i in idx <==> Shown(ws[i], onlyShow, EffectiveOutput(output, info))))
  {
    KeptIsOrderedSubsequence(ws, onlyShow, EffectiveOutput(output, info));
  }

  /** With a non-empty `only_show`, every segment is tagged with the group of one of the named flags. */
  lemma FlagFilterSound(info: SegmentInfo, fs: seq<Flag>, output: Option<string>, strip: nat, ws: seq<Workspace>)
    requires |fs| > 0
    ensures forall s :: s in Workspaces(info, Some(fs), output, strip, ws) ==>
              exists i :: 0 <= i < |fs| && GroupOf(fs[i]) in s.highlightGroups
  {
    forall s | s in Workspaces(info, Some(fs), output, strip, ws)
      ensures exists i :: 0 <= i < |fs| && GroupOf(fs[i]) in s.highlightGroups
    {
      var w :| w in ws && Shown(w, Some(fs), EffectiveOutput(output, info)) && s == ToSegment(w, strip);
      var i :| 0 <= i < |fs| && HasFlag(w, fs[i]);
      assert GroupOf(fs[i]) in CalcGroups(w);
    }
  }

  /** Without `only_show`, no workspace is dropped on flag grounds. */
  lemma FlagFilterOff(info: SegmentInfo, onlyShow: Option<seq<Flag>>, output: Option<string>, strip: nat,
                      ws: seq<Workspace>)
    requires onlyShow == None || onlyShow == Some([])
    ensures forall w :: w in ws && ShownOnOutput(w, EffectiveOutput(output, info)) ==>
              ToSegment(w, strip) in Workspaces(info, onlyShow, output, strip, ws)
  {
  }

  /**
    The output filter uses the `output` argument when it is set and otherwise
    the context's hint: every segment then comes from a workspace on that output.
   */
  lemma OutputFilterSound(info: SegmentInfo, onlyShow: Option<seq<Flag>>, output: Option<string>, strip: nat,
                          ws: seq<Workspace>)
    ensures IsSet(output) ==>
              forall s :: s in Workspaces(info, onlyShow, output, strip, ws) ==>
                exists w :: w in ws && w.output == output.value && s == ToSegment(w, strip)
    ensures !IsSet(output) && IsSet(info.output) ==>
              forall s :: s in Workspaces(info, onlyShow, output, strip, ws) ==>
                exists w :: w in ws && w.output == info.output.value && s == ToSegment(w, strip)
  {
  }

  /** With neither an output argument nor a hint, no workspace is dropped on output grounds. */
  lemma OutputFilterOff(info: SegmentInfo, onlyShow: Option<seq<Flag>>, output: Option<string>, strip: nat,
                        ws: seq<Workspace>)
    requires !IsSet(output) && !IsSet(info.output)
    ensures forall w :: w in ws && ShownByFlags(w, onlyShow) ==>
              ToSegment(w, strip) in Workspaces(info, onlyShow, output, strip, ws)
  {
  }

  /** When every workspace passes the filters, filtering returns the list unchanged. */
  lemma {:induction false} KeptAllShown(ws: seq<Workspace>, onlyShow: Option<seq<Flag>>, output: Option<string>)
    requires forall i :: 0 <= i < |ws| ==> Shown(ws[i], onlyShow, output)
    ensures Kept(ws, onlyShow, output) == ws
  {
    if ws != [] {
      KeptAllShown(ws[1..], onlyShow, output);
      assert [ws[0]] + ws[1..] == ws;
    }
  }

  /** With no filter at all, the segments are the workspaces one for one, in order. */
  lemma UnfilteredIsMap(info: SegmentInfo, onlyShow: Option<seq<Flag>>, output: Option<string>, strip: nat,
                        ws: seq<Workspace>)
    requires onlyShow == None || onlyShow == Some([])
    requires !IsSet(output) && !IsSet(info.output)
    ensures |Workspaces(info, onlyShow, output, strip, ws)| == |ws|
    ensures forall k :: 0 <= k < |ws| ==> Workspaces(info, onlyShow, output, strip, ws)[k] == ToSegment(ws[k], strip)
  {
    KeptAllShown(ws, onlyShow, EffectiveOutput(output, info));
  }

  // ---------------------------------------------------------------------------
  // mode
  // ---------------------------------------------------------------------------

  /** The default `names` map: the `default` mode is shown as nothing. */
  const DefaultModeNames: map<string, Option<string>> := map["default" := None]

  /** The `mode` segment: the display name of the current mode, `None` to leave the segment out. */
  function Mode(info: SegmentInfo, names: map<string, Option<string>>): (r: Option<string>)
    ensures info.mode in names ==> r == names[info.mode]
    ensures info.mode !in names ==> r == Some(info.mode)
    ensures r == Some(info.mode) || r in names.Values
    ensures r == None ==> info.mode in names && names[info.mode] == None
  {
    if info.mode in names then names[info.mode] else Some(info.mode)
  }

  /** With the default names, the `default` mode is hidden and every other mode is shown verbatim. */
  lemma DefaultModeHidden(info: SegmentInfo)
    ensures Mode(info, DefaultModeNames) == if info.mode == "default" then None else Some(info.mode)
  {
  }
}
