/**
 * The "Add Task" button: the text box's content becomes a new task only when
 * it holds something other than white space, and the box is then cleared.
 */
module AddForm {
  import opened TaskList

  /**
   * The characters JavaScript's `String.prototype.trim` removes: the
   * WhiteSpace code points (tab, vertical tab, form feed, space, no-break
   * space, the byte order mark and the other space separators) and the
   * LineTerminator code points (line feed, carriage return, line and
   * paragraph separators).
   */
  predicate IsWhiteSpace(c: char)
  {
    var n := c as int;
    n == 0x09 || n == 0x0A || n == 0x0B || n == 0x0C || n == 0x0D || n == 0x20
    || n == 0xA0 || n == 0x1680 || (0x2000 <= n <= 0x200A)
    || n == 0x2028 || n == 0x2029 || n == 0x202F || n == 0x205F
    || n == 0x3000 || n == 0xFEFF
  }

  /** The string holds at least one character that trimming keeps. */
  predicate HasVisibleText(s: string)
  {
    exists k :: 0 <= k < |s| && !IsWhiteSpace(s[k])
  }

  /** `s` with its leading white space removed: a suffix of `s`. */
  function TrimStart(s: string): (r: string)
    ensures |r| <= |s| && r == s[|s| - |r|..]
    ensures r == [] || !IsWhiteSpace(r[0])
    ensures forall k :: 0 <= k < |s| - |r| ==> IsWhiteSpace(s[k])
  {
    if s != [] && IsWhiteSpace(s[0]) then TrimStart(s[1..]) else s
  }

  /** `s` with its trailing white space removed: a prefix of `s`. */
  function TrimEnd(s: string): (r: string)
    ensures |r| <= |s| && r == s[..|r|]
    ensures r == [] || !IsWhiteSpace(r[|r| - 1])
    ensures forall k :: |r| <= k < |s| ==> IsWhiteSpace(s[k])
  {
    if s != [] && IsWhiteSpace(s[|s| - 1]) then TrimEnd(s[..|s| - 1]) else s
  }

  /**
   * `r` is the slice of `s` that starts at position `a` and has nothing but
   * white space on either side of it.
   */
  predicate IsInnerSlice(s: string, r: string, a: int)
  {
    0 <= a && a + |r| <= |s| && r == s[a..a + |r|]
    && (forall k :: 0 <= k < a ==> IsWhiteSpace(s[k]))
    && (forall k :: a + |r| <= k < |s| ==> IsWhiteSpace(s[k]))
  }

  /**
   * `s.trim()`: white space removed from both ends. The result is a slice of
   * `s` surrounded only by white space, and it neither starts nor ends with
   * white space.
   */
  function Trim(s: string): (r: string)
    ensures exists a :: IsInnerSlice(s, r, a)
    ensures r == [] || (!IsWhiteSpace(r[0]) && !IsWhiteSpace(r[|r| - 1]))
  {
    var t := TrimStart(s);
    var r := TrimEnd(t);
    InnerSliceOfSuffix(s, t, r);
    assert r != [] ==> r[0] == t[0];
    r
  }

  /**
   * If `t` is what is left of `s` after white space is dropped from the front,
   * and `r` what is left of `t` after white space is dropped from the back,
   * then `r` is a slice of `s` with only white space around it.
   */
  lemma InnerSliceOfSuffix(s: string, t: string, r: string)
    requires |t| <= |s| && t == s[|s| - |t|..]
    requires forall k :: 0 <= k < |s| - |t| ==> IsWhiteSpace(s[k])
    requires |r| <= |t| && r == t[..|r|]
    requires forall k :: |r| <= k < |t| ==> IsWhiteSpace(t[k])
    ensures IsInnerSlice(s, r, |s| - |t|)
  {
    var a := |s| - |t|;
    assert r == s[a..a + |r|];
    forall k | a + |r| <= k < |s|
      ensures IsWhiteSpace(s[k])
    {
      assert s[k] == t[k - a];
    }
  }

  /** Trimming yields the empty string exactly when there is nothing but white space. */
  lemma TrimEmptyIffBlank(s: string)
    ensures Trim(s) == [] <==> !HasVisibleText(s)
  {
    var r := Trim(s);
    var a :| IsInnerSlice(s, r, a);
    if r != [] {
      assert s[a] == r[0];
    }
  }

  /** What the form holds: the task list and the text box's current content. */
  datatype Form = Form(tasks: seq<Task>, input: string)

  /**
   * A click on "Add Task". If the trimmed input is non-empty, one ADD action
   * carrying the untrimmed input is dispatched and the text box is cleared;
   * otherwise nothing changes.
   */
  function ClickAdd(f: Form): (r: Form)
    ensures HasVisibleText(f.input) ==> r == Form(f.tasks + [Task(f.input, false)], "")
    ensures !HasVisibleText(f.input) ==> r == f
  {
    TrimEmptyIffBlank(f.input);
    if Trim(f.input) != "" then Form(Reduce(f.tasks, Add(f.input)), "") else f
  }

  /** A click never changes the completed count. */
  lemma ClickAddKeepsCount(f: Form)
    ensures CompletedCount(ClickAdd(f).tasks) == CompletedCount(f.tasks)
  {
    if HasVisibleText(f.input) {
      AddKeepsCount(f.tasks, f.input);
    }
  }
}
