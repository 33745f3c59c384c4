/** String helpers shared by the whole model: the parts of Python's `str` API the
    program relies on (`strip`, `split` on one character, `join`, `lower`, `in`),
    stated over `seq<char>`. */
module Text {

  /** Python's `str.isspace` for the characters the program can meet: the ASCII
      whitespace characters, the ASCII separators 0x1C-0x1F, NEL, NBSP and the
      ideographic space. */
  predicate IsSpace(c: char) {
    || c == ' ' || c == '\t' || c == '\n' || c == '\r'
    || c == '\U{0B}' || c == '\U{0C}'
    || ('\U{1C}' <= c <= '\U{1F}')
    || c == '\U{85}' || c == '\U{A0}' || c == '\U{3000}'
  }

  predicate NoSpaceAtEnds(s: string) {
    |s| == 0 || (!IsSpace(s[0]) && !IsSpace(s[|s| - 1]))
  }

  /** `s.lstrip()` */
  function StripLeft(s: string): (r: string)
    ensures |r| <= |s|
    ensures |r| == 0 || !IsSpace(r[0])
    ensures forall i :: 0 <= i < |s| - |r| ==> IsSpace(s[i])
  {
    if |s| > 0 && IsSpace(s[0]) then StripLeft(s[1..]) else s
  }

  /** `lstrip` removes a prefix: what is left is a suffix. */
  lemma {:induction false} StripLeftSuffix(s: string)
    ensures StripLeft(s) == s[|s| - |StripLeft(s)|..]
  {
    if |s| > 0 && IsSpace(s[0]) {
      StripLeftSuffix(s[1..]);
    }
  }

  /** `s.rstrip()` */
  function StripRight(s: string): (r: string)
    ensures |r| <= |s|
    ensures |r| == 0 || !IsSpace(r[|r| - 1])
    ensures forall i :: |r| <= i < |s| ==> IsSpace(s[i])
  {
    if |s| > 0 && IsSpace(s[|s| - 1]) then StripRight(s[..|s| - 1]) else s
  }

  /** `s.strip()`: the longest infix with no whitespace at either end, obtained by
      removing only whitespace. */
  function Strip(s: string): (r: string)
    ensures NoSpaceAtEnds(r)
    ensures |r| <= |s|
    ensures Occurs(r, s)
  {
    var l := StripLeft(s);
    var r := StripRight(l);
    StripLeftSuffix(s);
    StripRightPrefix(l);
    assert OccursAt(r, s, |s| - |l|);
    r
  }

  /** `rstrip` removes a suffix: what is left is a prefix. */
  lemma {:induction false} StripRightPrefix(s: string)
    ensures StripRight(s) == s[..|StripRight(s)|]
  {
    if |s| > 0 && IsSpace(s[|s| - 1]) {
      StripRightPrefix(s[..|s| - 1]);
    }
  }

  lemma StripNoop(s: string)
    requires NoSpaceAtEnds(s)
    ensures Strip(s) == s
  {
  }

  /** Python's `s.split(sep)` for a one-character separator: the maximal pieces
      between separators, empty pieces included. */
  function Split(s: string, sep: char): (parts: seq<string>)
    ensures |parts| >= 1
    ensures forall k :: 0 <= k < |parts| ==> sep !in parts[k]
    ensures |parts| == 1 <==> sep !in s
  {
    if |s| == 0 then [""]
    else
      var rest := Split(s[1..], sep);
      if s[0] == sep then [""] + rest
      else [[s[0]] + rest[0]] + rest[1..]
  }

  /** Python's `sep.join(parts)`. */
  function Join(sep: string, parts: seq<string>): string
  {
    if |parts| == 0 then ""
    else if |parts| == 1 then parts[0]
    else parts[0] + sep + Join(sep, parts[1..])
  }

  /** Joining the pieces of a split puts back exactly the separators it removed. */
  lemma {:induction false} JoinSplit(s: string, sep: char)
    ensures Join([sep], Split(s, sep)) == s
  {
    if |s| == 0 {
    } else {
      var rest := Split(s[1..], sep);
      JoinSplit(s[1..], sep);
      if s[0] == sep {
        assert Split(s, sep) == [""] + rest;
        assert Join([sep], [""] + rest) == "" + [sep] + Join([sep], rest);
      } else {
        var parts := Split(s, sep);
        assert parts == [[s[0]] + rest[0]] + rest[1..];
        if |rest| == 1 {
          assert Join([sep], parts) == [s[0]] + rest[0];
          assert Join([sep], rest) == rest[0];
        } else {
          assert Join([sep], rest) == rest[0] + [sep] + Join([sep], rest[1..]);
          assert parts[1..] == rest[1..];
        }
      }
    }
  }

  /** Splitting a join recovers the pieces when no piece contains the separator. */
  lemma {:induction false} SplitJoin(parts: seq<string>, sep: char)
    requires |parts| >= 1
    requires forall k :: 0 <= k < |parts| ==> sep !in parts[k]
    ensures Split(Join([sep], parts), sep) == parts
    decreases |parts|, |parts[0]|
  {
    if |parts| == 1 {
      SplitNoSep(parts[0], sep);
    } else if |parts[0]| == 0 {
      var tail := Join([sep], parts[1..]);
      assert Join([sep], parts) == [sep] + tail;
      SplitJoin(parts[1..], sep);
      assert ([sep] + tail)[1..] == tail;
      assert Split([sep] + tail, sep) == [""] + Split(tail, sep);
      assert [""] + parts[1..] == parts;
    } else {
      var c := parts[0][0];
      var shorter := [parts[0][1..]] + parts[1..];
      assert c in parts[0];
      assert forall k :: 0 <= k < |shorter| ==> sep !in shorter[k] by {
        forall k | 0 <= k < |shorter| ensures sep !in shorter[k] {
          if k == 0 {
            assert forall x :: x in parts[0][1..] ==> x in parts[0];
          } else {
            assert shorter[k] == parts[k];
          }
        }
      }
      SplitJoin(shorter, sep);
      JoinFirstChar(parts, sep);
      SplitCons(c, Join([sep], shorter), sep);
      assert shorter[1..] == parts[1..];
      assert [c] + shorter[0] == parts[0];
      assert [parts[0]] + parts[1..] == parts;
    }
  }

  /** The first character of the first piece comes first in the join. */
  lemma JoinFirstChar(parts: seq<string>, sep: char)
    requires |parts| >= 1 && |parts[0]| > 0
    ensures Join([sep], parts) == [parts[0][0]] + Join([sep], [parts[0][1..]] + parts[1..])
  {
    var shorter := [parts[0][1..]] + parts[1..];
    assert shorter[1..] == parts[1..];
    assert parts[0] == [parts[0][0]] + parts[0][1..];
  }

  /** A leading non-separator joins the first piece of the split. */
  lemma SplitCons(c: char, w: string, sep: char)
    requires c != sep
    ensures Split([c] + w, sep) == [[c] + Split(w, sep)[0]] + Split(w, sep)[1..]
  {
    assert ([c] + w)[1..] == w;
  }

  /** Two separator-free pieces joined by the separator split back apart. */
  lemma SplitTwo(a: string, b: string, sep: char)
    requires sep !in a && sep !in b
    ensures Split(a + [sep] + b, sep) == [a, b]
  {
    var parts := [a, b];
    assert parts[1..] == [b];
    assert Join([sep], parts) == a + [sep] + b;
    SplitJoin(parts, sep);
  }

  lemma SplitNoSep(s: string, sep: char)
    requires sep !in s
    ensures Split(s, sep) == [s]
  {
    assert |Split(s, sep)| == 1;
    JoinSplit(s, sep);
  }

  /** `s.find(c)`, with |s| for "not found". */
  function IndexOf(s: string, c: char): (i: nat)
    ensures i <= |s|
    ensures i < |s| ==> s[i] == c
    ensures forall j :: 0 <= j < i ==> s[j] != c
  {
    if |s| == 0 then 0
    else if s[0] == c then 0
    else 1 + IndexOf(s[1..], c)
  }

  /** ASCII case folding, the part of `str.lower`/`str.upper` the model uses. */
  function LowerChar(c: char): char {
    if 'A' <= c <= 'Z' then (c as int + 32) as char else c
  }

  function UpperChar(c: char): char {
    if 'a' <= c <= 'z' then (c as int - 32) as char else c
  }

  predicate IsAsciiLetter(c: char) {
    ('a' <= c <= 'z') || ('A' <= c <= 'Z')
  }

  function Lower(s: string): (r: string)
    ensures |r| == |s|
    ensures forall i :: 0 <= i < |s| ==> r[i] == LowerChar(s[i])
  {
    if |s| == 0 then "" else [LowerChar(s[0])] + Lower(s[1..])
  }

  predicate IsPrefix(t: string, s: string) {
    |t| <= |s| && s[..|t|] == t
  }

  predicate OccursAt(t: string, s: string, i: int) {
    0 <= i <= |s| - |t| && s[i..i + |t|] == t
  }

  /** Python's `t in s` for strings: `t` occurs somewhere inside `s`. */
  ghost predicate Occurs(t: string, s: string) {
    exists i :: OccursAt(t, s, i)
  }

  /** Executable substring search. */
  function Contains(s: string, t: string): (b: bool)
    ensures b <==> Occurs(t, s)
  {
    if IsPrefix(t, s) then
      assert OccursAt(t, s, 0);
      true
    else if |s| == 0 then false
    else
      OccursInTail(t, s);
      Contains(s[1..], t)
  }

  /** When `t` is not a prefix, it occurs in `s` exactly when it occurs in the
      tail. */
  lemma OccursInTail(t: string, s: string)
    requires |s| > 0 && !IsPrefix(t, s)
    ensures Occurs(t, s) <==> Occurs(t, s[1..])
  {
    if Occurs(t, s[1..]) {
      var i :| OccursAt(t, s[1..], i);
      OccursTail(t, s, i + 1);
    }
    if Occurs(t, s) {
      var i :| OccursAt(t, s, i);
      assert i != 0;
      OccursTail(t, s, i);
    }
  }

  /** An occurrence after the first character is an occurrence in the tail. */
  lemma OccursTail(t: string, s: string, i: int)
    requires |s| > 0 && 0 < i
    ensures OccursAt(t, s, i) <==> OccursAt(t, s[1..], i - 1)
  {
    if i <= |s| - |t| {
      assert s[1..][i - 1..i - 1 + |t|] == s[i..i + |t|];
    }
  }

  /** `s.rfind(c)`, with -1 for "not found". */
  function LastIndex(s: string, c: char): (i: int)
    ensures -1 <= i < |s|
    ensures i >= 0 ==> s[i] == c
    ensures forall j :: i < j < |s| ==> s[j] != c
  {
    if |s| == 0 then -1
    else if s[|s| - 1] == c then |s| - 1
    else LastIndex(s[..|s| - 1], c)
  }

  /** The two path separators of Windows paths. */
  predicate IsPathSep(c: char) {
    c == '/' || c == '\\'
  }

  /** The root that Windows `os.path.splitext(p)[0]` returns: `p` without its
      extension. The extension starts at the last dot of the last path component,
      and only when that component has a character other than a dot before it,
      so that `.profile` has no extension. */
  function SplitExtRoot(p: string): (root: string)
    ensures IsPrefix(root, p)
    ensures root != p ==> p[|root|] == '.'
    ensures root != p ==> forall i :: |root| < i < |p| ==> p[i] != '.' && !IsPathSep(p[i])
    ensures root != p ==> exists k :: 0 <= k < |root| && root[k] != '.' && !IsPathSep(root[k])
  {
    var dot := LastIndex(p, '.');
    var a := LastIndex(p, '/');
    var b := LastIndex(p, '\\');
    var sep := if a >= b then a else b;
    if dot > sep && exists k :: sep + 1 <= k < dot && p[k] != '.' then p[..dot] else p
  }

  /** Appending an extension to a root whose last character is an ordinary one
      gives back that root. */
  lemma SplitExtAppend(root: string, ext: string)
    requires |root| > 0 && root[|root| - 1] != '.' && !IsPathSep(root[|root| - 1])
    requires |ext| > 0 && ext[0] == '.'
    requires forall i :: 1 <= i < |ext| ==> ext[i] != '.' && !IsPathSep(ext[i])
    ensures SplitExtRoot(root + ext) == root
  {
    var p := root + ext;
    var dot := LastIndex(p, '.');
    assert p[|root|] == '.';
    assert dot == |root|;
    var a := LastIndex(p, '/');
    var b := LastIndex(p, '\\');
    assert p[|root| - 1] == root[|root| - 1];
    assert a < |root| - 1 && b < |root| - 1;
    assert p[..dot] == root;
  }
}
