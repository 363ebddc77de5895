/** `toggle_template` of `control_center.py`: an editor flips between the
    file being edited and the matching example file shipped next to it. */
module Templates {
  import opened Wrappers
  import opened PyText

  /** The example every game profile is compared with. */
  const GameTemplate := "game.example.yaml"

  /** The example file for a global file: an example already is its own
      example; otherwise every `.yaml` becomes `.example.yaml`. */
  function TemplateName(target: string): string {
    if Contains(target, ".example.") then target else Replace(target, ".yaml", ".example.yaml")
  }

  /** The example file an editor shows; `context` names the editor, and
      every editor but the global one is a game editor. */
  function TemplateFile(context: string, target: string): (f: string)
    ensures context != "global" ==> f == GameTemplate
  {
    if context == "global" then TemplateName(target) else GameTemplate
  }

  /** `.example.` occurs in `.example.yaml`. */
  lemma ExampleInExampleYaml(s: string)
    requires Contains(s, ".example.yaml")
    ensures Contains(s, ".example.")
  {
    var i := Find(s, ".example.yaml").value;
    assert s[i..i + 9] == s[i..i + 13][..9];
    assert IsAt(s, ".example.", i);
    ContainsAt(s, ".example.", i);
  }

  /** Every name the toggle can produce for a YAML file or an example is an
      example name, so asking for the example of an example changes
      nothing. */
  lemma TemplateNameIdempotent(target: string)
    requires Contains(target, ".example.") || Contains(target, ".yaml")
    ensures Contains(TemplateName(target), ".example.")
    ensures TemplateName(TemplateName(target)) == TemplateName(target)
  {
    if !Contains(target, ".example.") {
      ExampleInExampleYaml(TemplateName(target));
    }
  }

  /** A name without `.yaml` and without `.example.` has no example: the
      toggle looks for the file itself. */
  lemma TemplateNameOfOther(target: string)
    requires !Contains(target, ".example.") && !Contains(target, ".yaml")
    ensures TemplateName(target) == target
  {
  }

  /** A name with `.example.` in it is its own example. */
  lemma ExampleNameKept(x: string, y: string)
    ensures TemplateName(x + ".example." + y) == x + ".example." + y
  {
    var s := x + ".example." + y;
    assert IsAt(s, ".example.", |x|) by {
      assert s[|x|..|x| + 9] == ".example.";
    }
    ContainsAt(s, ".example.", |x|);
  }

  /** A plain `<x>.yaml`, with no dot in `x`, has `<x>.example.yaml` as its
      example. */
  lemma YamlTemplate(x: string)
    requires forall k :: 0 <= k < |x| ==> x[k] != '.'
    ensures TemplateName(x + ".yaml") == x + ".example.yaml"
  {
    var s := x + ".yaml";
    assert forall k :: 0 <= k < |x| ==> s[k] != '.';
    assert !Contains(s, ".example.") by {
      forall k: nat ensures !IsAt(s, ".example.", k) {
        if k + 9 <= |s| {
          assert s[k..k + 9][0] == s[k];
        }
      }
    }
    assert Find(s, ".yaml") == Some(|x|) by {
      assert s[|x|..|x| + 5] == ".yaml";
      assert IsAt(s, ".yaml", |x|);
      forall k: nat | k < |x| ensures !IsAt(s, ".yaml", k) {
        assert s[k..k + 5][0] == s[k];
      }
    }
    assert Replace(s[|x| + 5..], ".yaml", ".example.yaml") == "" by {
      assert s[|x| + 5..] == "";
      assert Find("", ".yaml").None?;
    }
    assert s[..|x|] == x;
  }

  /** What an editor holds and whether it shows the example. */
  datatype View = View(text: string, isTemplate: bool, cache: string)

  /** The toggle. Switching to the example caches the edited text, and
      only happens when the example file exists (`example` is its content,
      `None` when missing: the editor then stays as it is); switching back
      restores the cached text. */
  function Toggle(v: View, example: Option<string>): (r: View)
    ensures !v.isTemplate && example.None? ==> r == v
    ensures !v.isTemplate && example.Some? ==> r.isTemplate && r.text == example.value && r.cache == v.text
    ensures v.isTemplate ==> !r.isTemplate && r.text == v.cache
  {
    if !v.isTemplate then
      match example
      case Some(content) => View(content, true, v.text)
      case None => v
    else v.(text := v.cache, isTemplate := false)
  }

  /** Looking at the example and back restores the edited text. */
  lemma ToggleTwiceRestores(v: View, example: Option<string>)
    requires !v.isTemplate
    ensures Toggle(Toggle(v, example), example).text == v.text
    ensures !Toggle(Toggle(v, example), example).isTemplate
  {
  }
}
