/**
 * The indenting text writer of the protocol reader's code generator (`TextOutput`).
 *
 * The writer appends to an output buffer. After a newline it owes the current indentation, which
 * it emits in front of the next value appended; indentation strings are cached per level, two
 * blanks per level. The fluent `return this` of the source carries no information and is dropped:
 * a chain of calls is a sequence of calls here.
 */
module TextOutputs {
  import opened Common

  /** Blanks per indentation level. */
  const IndentGranularity: nat := 2

  /** The indentation string of `level`. */
  function IndentOf(level: nat): string
  {
    Spaces(level * IndentGranularity)
  }

  class TextOutput {
    /** The text written so far (the source's `StringBuilder`). */
    var out: string
    /** The current indentation level; `indentOut` may take it below zero. */
    var identLevel: int
    /** The cache of indentation strings, grown one level at a time. */
    var indents: array<string>
    /** Whether the last thing written was a newline, so that indentation is owed. */
    var justNewLined: bool

    /** The cache has an entry for every level reached so far, and entry `k` is `2 * k` blanks. */
    ghost predicate Valid()
      reads this, indents
    {
      1 <= indents.Length && identLevel < indents.Length &&
      forall k :: 0 <= k < indents.Length ==> indents[k] == IndentOf(k)
    }

    /** The next append can emit its indentation: none is owed, or the level is a valid index. */
    ghost predicate CanAppend()
      reads this, indents
    {
      Valid() && (justNewLined ==> 0 <= identLevel)
    }

    /** The indentation the next append emits first. */
    ghost function Pending(): string
      requires CanAppend()
      reads this, indents
    {
      if justNewLined then IndentOf(identLevel) else ""
    }

    constructor (out: string)
      ensures Valid() && CanAppend()
      ensures this.out == out && identLevel == 0 && !justNewLined
      ensures fresh(indents) && indents.Length == 1
    {
      this.out := out;
      identLevel := 0;
      indents := new string[1](_ => "");
      justNewLined := false;
    }

    /** `indentIn`: one level deeper, caching the new level's indentation when it is first reached. */
    method IndentIn()
      requires Valid()
      modifies this
      ensures Valid()
      ensures identLevel == old(identLevel) + 1
      ensures old(identLevel) + 1 < old(indents.Length) ==> indents == old(indents)
      ensures old(identLevel) + 1 >= old(indents.Length) ==> fresh(indents) && indents.Length == old(indents.Length) + 1
      ensures out == old(out) && justNewLined == old(justNewLined)
    {
      identLevel := identLevel + 1;
      var cached := indents;
      if identLevel >= cached.Length {
        var newIndentLevel := Spaces(identLevel * IndentGranularity);
        var newIndents := new string[cached.Length + 1];
        for k := 0 to cached.Length
          modifies newIndents
          invariant forall m :: 0 <= m < k ==> newIndents[m] == cached[m]
        {
          newIndents[k] := cached[k];
        }
        newIndents[identLevel] := newIndentLevel;
        indents := newIndents;
      }
    }

    /** `indentOut`: one level shallower; nothing else changes. */
    method IndentOut()
      requires Valid()
      modifies this
      ensures Valid()
      ensures identLevel == old(identLevel) - 1
      ensures indents == old(indents) && out == old(out) && justNewLined == old(justNewLined)
    {
      identLevel := identLevel - 1;
    }

    /** `newLine`: appends exactly a line feed and records that indentation is owed. */
    method NewLine()
      requires Valid()
      modifies this
      ensures Valid()
      ensures out == old(out) + "\n" && justNewLined
      ensures identLevel == old(identLevel) && indents == old(indents)
    {
      out := out + "\n";
      justNewLined := true;
    }

    /** `maybeIndent`: emits the owed indentation, if any, and clears the debt. */
    method MaybeIndent()
      requires CanAppend()
      modifies this
      ensures CanAppend()
      ensures old(justNewLined) ==> out == old(out) + old(IndentOf(identLevel))
      ensures !old(justNewLined) ==> out == old(out)
      ensures !justNewLined && identLevel == old(identLevel) && indents == old(indents)
    {
      if justNewLined {
        out := out + indents[identLevel];
        justNewLined := false;
      }
    }

    /** `append(String)`/`append(CharSequence)`: owed indentation, then `s`. */
    method Append(s: string)
      requires CanAppend()
      modifies this
      ensures CanAppend()
      ensures out == old(out) + old(Pending()) + s
      ensures !justNewLined && identLevel == old(identLevel) && indents == old(indents)
    {
      MaybeIndent();
      out := out + s;
    }

    /** `append(Char)`: owed indentation, then `c`. */
    method AppendChar(c: char)
      requires CanAppend()
      modifies this
      ensures CanAppend()
      ensures out == old(out) + old(Pending()) + [c]
      ensures !justNewLined && identLevel == old(identLevel) && indents == old(indents)
    {
      MaybeIndent();
      out := out + [c];
    }

    /** `append(CharArray)`: owed indentation, then the characters of `s`. */
    method AppendChars(s: array<char>)
      requires CanAppend()
      modifies this
      ensures CanAppend()
      ensures out == old(out) + old(Pending()) + s[..]
      ensures !justNewLined && identLevel == old(identLevel) && indents == old(indents)
    {
      MaybeIndent();
      out := out + s[..];
    }

    /** `append(s, start)`: owed indentation, then `s` from index `start` to its end. */
    method AppendFrom(s: string, start: int)
      requires CanAppend()
      requires 0 <= start <= |s|
      modifies this
      ensures CanAppend()
      ensures out == old(out) + old(Pending()) + s[start..]
      ensures !justNewLined && identLevel == old(identLevel) && indents == old(indents)
    {
      MaybeIndent();
      out := out + s[start..|s|];
    }

    /** `append(Int)`: owed indentation, then the decimal text of `value`. */
    method AppendInt(value: Int32)
      requires CanAppend()
      modifies this
      ensures CanAppend()
      ensures out == old(out) + old(Pending()) + Int32ToString(value)
      ensures !justNewLined && identLevel == old(identLevel) && indents == old(indents)
    {
      MaybeIndent();
      out := out + Int32ToString(value);
    }

    /** `append(Boolean)`: owed indentation, then "true" or "false". */
    method AppendBool(value: bool)
      requires CanAppend()
      modifies this
      ensures CanAppend()
      ensures out == old(out) + old(Pending()) + (if value then "true" else "false")
      ensures !justNewLined && identLevel == old(identLevel) && indents == old(indents)
    {
      MaybeIndent();
      out := out + (if value then "true" else "false");
    }

    /** `space()`. */
    method Space()
      requires CanAppend()
      modifies this
      ensures CanAppend()
      ensures out == old(out) + old(Pending()) + " "
      ensures !justNewLined && identLevel == old(identLevel) && indents == old(indents)
    {
      AppendChar(' ');
    }

    /** `comma()`: a comma and a blank. */
    method Comma()
      requires CanAppend()
      modifies this
      ensures CanAppend()
      ensures out == old(out) + old(Pending()) + ", "
      ensures !justNewLined && identLevel == old(identLevel) && indents == old(indents)
    {
      AppendChar(',');
      Space();
    }

    /** `semi()`. */
    method Semi()
      requires CanAppend()
      modifies this
      ensures CanAppend()
      ensures out == old(out) + old(Pending()) + ";"
      ensures !justNewLined && identLevel == old(identLevel) && indents == old(indents)
    {
      AppendChar(';');
    }

    /** `openBlock(addNewLine)`: " {", a newline when asked for, then one level deeper. */
    method OpenBlock(addNewLine: bool)
      requires CanAppend()
      modifies this
      ensures Valid()
      ensures out == old(out) + old(Pending()) + " {" + (if addNewLine then "\n" else "")
      ensures identLevel == old(identLevel) + 1 && justNewLined == addNewLine
      ensures old(identLevel) + 1 < old(indents.Length) ==> indents == old(indents)
      ensures old(identLevel) + 1 >= old(indents.Length) ==> fresh(indents) && indents.Length == old(indents.Length) + 1
    {
      Space();
      AppendChar('{');
      if addNewLine {
        NewLine();
      }
      IndentIn();
    }

    /** `openBlock()`: the same as `openBlock(true)`. */
    method OpenBlockLine()
      requires CanAppend()
      modifies this
      ensures Valid()
      ensures out == old(out) + old(Pending()) + " {\n"
      ensures identLevel == old(identLevel) + 1 && justNewLined
      ensures old(identLevel) + 1 < old(indents.Length) ==> indents == old(indents)
      ensures old(identLevel) + 1 >= old(indents.Length) ==> fresh(indents) && indents.Length == old(indents.Length) + 1
    {
      OpenBlock(true);
    }

    /** `closeBlock()`: one level shallower, then a newline and '}' indented at the new level. */
    method CloseBlock()
      requires Valid() && 1 <= identLevel
      modifies this
      ensures CanAppend()
      ensures out == old(out) + "\n" + IndentOf(old(identLevel) - 1) + "}"
      ensures identLevel == old(identLevel) - 1 && !justNewLined && indents == old(indents)
    {
      IndentOut();
      NewLine();
      AppendChar('}');
    }

    /** `doc(description)`: nothing for a missing description, otherwise a three-line doc comment,
        each line after the first indented at the current level, followed by a newline. */
    method Doc(description: Option<string>)
      requires CanAppend()
      requires description.Some? ==> 0 <= identLevel
      modifies this
      ensures CanAppend()
      ensures identLevel == old(identLevel) && indents == old(indents)
      ensures description.None? ==> out == old(out) && justNewLined == old(justNewLined)
      ensures description.Some? ==>
        out == old(out) + old(Pending()) + "/**\n" + IndentOf(identLevel) + " * " + description.value + "\n"
               + IndentOf(identLevel) + " */\n" && justNewLined
    {
      if description.None? {
        return;
      }
      ghost var start, indent := out + Pending(), IndentOf(identLevel);
      Append("/**");
      NewLine();
      assert out == start + "/**\n";
      Append(" * ");
      Append(description.value);
      assert out == start + "/**\n" + indent + " * " + description.value;
      NewLine();
      Append(" */");
      assert out == start + "/**\n" + indent + " * " + description.value + "\n" + indent + " */";
      NewLine();
    }

    /** `quote(s)`: `s` between double quotes. */
    method Quote(s: string)
      requires CanAppend()
      modifies this
      ensures CanAppend()
      ensures out == old(out) + old(Pending()) + "\"" + s + "\""
      ensures !justNewLined && identLevel == old(identLevel) && indents == old(indents)
    {
      AppendChar('"');
      Append(s);
      AppendChar('"');
    }
  }

  /** A block written to a fresh writer: the body sits on its own line indented one level, and the
      closing brace returns to the outer level. */
  method RenderBlock(body: string) returns (text: string)
    ensures text == " {\n  " + body + "\n}"
  {
    var output := new TextOutput("");
    output.OpenBlockLine();
    output.Append(body);
    output.CloseBlock();
    text := output.out;
  }

  /** A doc comment written to a fresh writer at level zero, then one value after it. */
  method RenderDoc(description: string, value: string) returns (text: string)
    ensures text == "/**\n * " + description + "\n */\n" + value
  {
    var output := new TextOutput("");
    output.Doc(Some(description));
    output.Append(value);
    text := output.out;
  }

  /** Two nested blocks: the inner body is indented two levels, four blanks, which the writer
      caches on first use; each closing brace returns to its own block's level. */
  method RenderNestedBlocks(body: string) returns (text: string)
    ensures text == " {\n   {\n    " + body + "\n  }\n}"
  {
    assert IndentOf(0) == "" && IndentOf(1) == "  " && IndentOf(2) == "    ";
    var output := new TextOutput("");
    output.OpenBlockLine();
    assert output.out == " {\n" && output.identLevel == 1;
    output.OpenBlockLine();
    assert output.out == " {\n   {\n" && output.identLevel == 2;
    output.Append(body);
    assert output.out == " {\n   {\n    " + body;
    output.CloseBlock();
    assert output.out == " {\n   {\n    " + body + "\n  }" && output.identLevel == 1;
    output.CloseBlock();
    text := output.out;
  }
}
