/**
 * The `Template` class of the multi-database example: a fixed template
 * string in which `render` replaces each `{{key}}` placeholder of the
 * context by the text of its value, one context entry after the other.
 * The context dictionary is a sequence of its items in insertion order.
 */
module Templates {
  import opened Values
  import opened Strings

  /** The placeholder for `key`. */
  function Placeholder(key: string): (p: string)
    ensures |p| == |key| + 4
    ensures p[0] == '{' && p[1] == '{' && p[|p| - 2] == '}' && p[|p| - 1] == '}'
    ensures p[2..|p| - 2] == key
  {
    "{{" + key + "}}"
  }

  /** The output of `render` after the passes for the entries of `context`, in order. */
  function Rendered(template: string, context: seq<(string, Value)>): (output: string)
    ensures |context| == 0 ==> output == template
    decreases |context|
  {
    if |context| == 0 then template
    else
      var last := context[|context| - 1];
      Replace(Rendered(template, context[..|context| - 1]), Placeholder(last.0), ToStr(last.1))
  }

  /** `parts` joined by `sep`. */
  function Interleave(parts: seq<string>, sep: string): string
    requires |parts| >= 1
  {
    if |parts| == 1 then parts[0] else parts[0] + sep + Interleave(parts[1..], sep)
  }

  /** A template without a brace renders to itself, whatever the context. */
  lemma {:induction false} RenderWithoutPlaceholders(template: string, context: seq<(string, Value)>)
    requires '{' !in template
    ensures Rendered(template, context) == template
    decreases |context|
  {
    if |context| > 0 {
      var last := context[|context| - 1];
      RenderWithoutPlaceholders(template, context[..|context| - 1]);
      AbsentFirstChar(template, Placeholder(last.0));
      ReplaceAbsent(template, Placeholder(last.0), ToStr(last.1));
    }
  }

  /**
   * One pass replaces every occurrence of its placeholder: in a text made
   * of brace-free pieces separated by the placeholder, each one becomes
   * the value's text.
   */
  lemma {:induction false} PassReplacesEveryOccurrence(parts: seq<string>, key: string, replacement: string)
    requires |parts| >= 1
    requires forall k :: 0 <= k < |parts| ==> '{' !in parts[k]
    ensures Replace(Interleave(parts, Placeholder(key)), Placeholder(key), replacement) == Interleave(parts, replacement)
    decreases |parts|
  {
    var p := Placeholder(key);
    if |parts| == 1 {
      AbsentFirstChar(parts[0], p);
      ReplaceAbsent(parts[0], p, replacement);
    } else {
      var a := parts[0];
      var rest := Interleave(parts[1..], p);
      var s := a + p + rest;
      assert Interleave(parts, p) == s;
      assert s[|a|..|a| + |p|] == p;
      forall j: nat | j < |a| ensures !OccursAt(s, p, j) {
        if j + |p| <= |s| {
          assert s[j..j + |p|][0] == a[j] != p[0];
        }
      }
      ReplaceFirst(s, p, replacement, |a|);
      assert s[..|a|] == a;
      assert s[|a| + |p|..] == rest;
      PassReplacesEveryOccurrence(parts[1..], key, replacement);
    }
  }

  /** A template with one placeholder, rendered with its key alone, has the value's text in its place. */
  lemma RenderFillsPlaceholder(before: string, key: string, after: string, value: Value)
    requires '{' !in before && '{' !in after
    ensures Rendered(before + Placeholder(key) + after, [(key, value)]) == before + ToStr(value) + after
  {
    var parts := [before, after];
    assert parts[1..] == [after];
    assert Interleave(parts, Placeholder(key)) == before + Placeholder(key) + after;
    assert Interleave(parts, ToStr(value)) == before + ToStr(value) + after;
    PassReplacesEveryOccurrence(parts, key, ToStr(value));
    assert [(key, value)][..0] == [];
  }

  /** The placeholder of a different brace-free key does not occur around a placeholder. */
  lemma OtherPlaceholderAbsent(before: string, key: string, after: string, other: string)
    requires '{' !in before && '{' !in after
    requires '{' !in key && '}' !in key && '{' !in other && '}' !in other
    requires other != key
    ensures !Contains(before + Placeholder(key) + after, Placeholder(other))
  {
    var s := before + Placeholder(key) + after;
    var p := Placeholder(other);
    var n, m := |before|, |key|;
    forall i: nat | i <= |s| ensures !OccursAt(s, p, i) {
      if i + |p| <= |s| {
        var w := s[i..i + |p|];
        if i < n {
          assert w[0] == before[i];
        } else if i == n + 1 {
          assert w[1] == s[n + 2] == (if m > 0 then key[0] else '}');
        } else if i == n {
          assert forall j :: 2 <= j < 2 + m && j < |w| ==> w[j] == key[j - 2];
          assert 2 + m < |w| ==> w[2 + m] == '}';
          WindowDiffers(w, key, other);
        } else if i < n + 2 + m {
          assert w[0] == key[i - n - 2];
        } else if i < n + 4 + m {
          assert w[0] == '}';
        } else {
          assert w[0] == after[i - n - 4 - m];
        }
      }
    }
  }

  /** A window that spells the placeholder of `key` as far as it reaches is not the placeholder of another key. */
  lemma WindowDiffers(w: string, key: string, other: string)
    requires |w| == |other| + 4
    requires forall j :: 2 <= j < 2 + |key| && j < |w| ==> w[j] == key[j - 2]
    requires 2 + |key| < |w| ==> w[2 + |key|] == '}'
    requires '}' !in key && '}' !in other && other != key
    ensures w != Placeholder(other)
  {
    var p := Placeholder(other);
    var m := |key|;
    if |other| < m {
      assert w[2 + |other|] == key[|other|];
      assert p[2 + |other|] == '}';
    } else if |other| > m {
      assert w[2 + m] == '}';
      assert p[2 + m] == other[m];
    } else {
      var j :| 0 <= j < m && other[j] != key[j];
      assert w[2 + j] == key[j];
      assert p[2 + j] == other[j];
    }
  }

  /**
   * A placeholder whose key is not in the context stays as it is, when the
   * rest of the template and the keys have no braces.
   */
  lemma {:induction false} UnknownPlaceholderStays(before: string, key: string, after: string, context: seq<(string, Value)>)
    requires '{' !in before && '{' !in after && '{' !in key && '}' !in key
    requires forall k :: 0 <= k < |context| ==> '{' !in context[k].0 && '}' !in context[k].0 && context[k].0 != key
    ensures Rendered(before + Placeholder(key) + after, context) == before + Placeholder(key) + after
    decreases |context|
  {
    if |context| > 0 {
      var last := context[|context| - 1];
      var s := before + Placeholder(key) + after;
      UnknownPlaceholderStays(before, key, after, context[..|context| - 1]);
      OtherPlaceholderAbsent(before, key, after, last.0);
      ReplaceAbsent(s, Placeholder(last.0), ToStr(last.1));
    }
  }

  /** Later entries see the output of earlier ones: one more entry is one more pass over the output. */
  lemma RenderedAppend(template: string, context: seq<(string, Value)>, key: string, value: Value)
    ensures Rendered(template, context + [(key, value)])
         == Replace(Rendered(template, context), Placeholder(key), ToStr(value))
  {
    assert (context + [(key, value)])[..|context|] == context;
  }

  class Template {
    const templateString: string

    constructor (templateString: string)
      ensures this.templateString == templateString
    {
      this.templateString := templateString;
    }

    /** `render(context)`. */
    method Render(context: seq<(string, Value)>) returns (output: string)
      ensures output == Rendered(templateString, context)
    {
      output := templateString;
      for k := 0 to |context|
        invariant output == Rendered(templateString, context[..k])
      {
        assert context[..k + 1][..k] == context[..k];
        var (key, value) := context[k];
        var placeholder := "{{" + key + "}}";
        output := Replace(output, placeholder, ToStr(value));
      }
      assert context[..|context|] == context;
    }
  }
}
