/**
 * The two name computations of the shortcut collection, as string functions:
 * `Rename` (the "Reset Name" shortcut) and the regular-expression replacement
 * of the "Remove Duplicated Name" shortcut.
 */
module Names {
  import opened Wrappers

  /** The position of the first `c` in `s`, or -1 when `s` holds none, as string.IndexOf returns it. */
  function IndexOf(s: string, c: char): (r: int)
    ensures r == -1 <==> c !in s
    ensures r != -1 ==> 0 <= r < |s| && s[r] == c && c !in s[..r]
  {
    if |s| == 0 then -1
    else if s[0] == c then 0
    else
      var k := IndexOf(s[1..], c);
      assert s == [s[0]] + s[1..];
      if k == -1 then -1
      else
        assert s[..k + 1] == [s[0]] + s[1..][..k];
        k + 1
  }

  // ---------------------------------------------------------------------------
  // Reset Name
  // ---------------------------------------------------------------------------

  /**
   * The name "Reset Name" gives an object: when the name has a '(' and a ')'
   * and the first '(' comes before the first ')', the name is cut just before
   * that '('; otherwise it is kept.
   */
  function Rename(name: string): (r: string)
    ensures |r| <= |name| && r == name[..|r|]
    ensures r != name ==> '(' !in r && ')' !in r && name[|r|] == '('
  {
    var start := IndexOf(name, '(');
    var end := IndexOf(name, ')');
    if start != -1 && end != -1 && start < end then name[..start] else name
  }

  /** The first '(' of `name` comes before its first ')' (and both exist). */
  ghost predicate OpensBeforeCloses(name: string)
  {
    exists i :: 0 <= i < |name| && name[i] == '(' && ')' !in name[..i] && ')' in name[i..]
  }

  /** When the first '(' precedes the first ')', the new name is everything before that '('. */
  lemma RenameCutsAtFirstParen(name: string)
    requires OpensBeforeCloses(name)
    ensures var r := Rename(name);
      |r| < |name| && name[..|r|] == r && name[|r|] == '(' && '(' !in r
  {
    var i :| 0 <= i < |name| && name[i] == '(' && ')' !in name[..i] && ')' in name[i..];
    var start, end := IndexOf(name, '('), IndexOf(name, ')');
    assert start <= i;
    assert end != -1 by {
      var k :| 0 <= k < |name[i..]| && name[i..][k] == ')';
      assert name[i + k] == ')';
    }
    assert i < end;
  }

  /** In every other case the name is left as it is. */
  lemma RenameKeepsOtherNames(name: string)
    requires !OpensBeforeCloses(name)
    ensures Rename(name) == name
  {
  }

  /** Resetting a name twice gives the same name as resetting it once. */
  lemma RenameIdempotent(name: string)
    ensures Rename(Rename(name)) == Rename(name)
  {
    var r := Rename(name);
    if r != name {
      assert IndexOf(r, '(') == -1;
    }
  }

  /** A name made of a parenthesis-free prefix, a '(' and a rest holding a ')' resets to the prefix. */
  lemma RenameKeepsPrefix(prefix: string, rest: string)
    requires '(' !in prefix && ')' !in prefix && ')' in rest
    ensures Rename(prefix + "(" + rest) == prefix
  {
    var name := prefix + "(" + rest;
    assert name[..|prefix|] == prefix;
    assert name[|prefix|] == '(';
    assert name[|prefix|..] == "(" + rest;
    RenameCutsAtFirstParen(name);
  }

  /** Only the first '(' counts: "Cube (1) (2)" becomes "Cube ". */
  lemma RenameExampleCube()
    ensures Rename("Cube (1) (2)") == "Cube "
  {
    assert "Cube (1) (2)" == "Cube " + "(" + "1) (2)";
    RenameKeepsPrefix("Cube ", "1) (2)");
  }

  /** A ')' before the first '(' disables the cut: ")a(b)" is kept. */
  lemma RenameExampleCloseFirst()
    ensures Rename(")a(b)") == ")a(b)"
  {
  }

  // ---------------------------------------------------------------------------
  // Remove Duplicated Name: the replacement of `(.*)(\([0-9]*\))` by `$1`
  // ---------------------------------------------------------------------------

  /** The character class `[0-9]`. */
  predicate IsDigit(c: char)
  {
    '0' <= c <= '9'
  }

  /**
   * A serial-number group: `s[j..j + len]` is a '(', then zero or more
   * digits, then a ')'.  This is what `\([0-9]*\)` matches.
   */
  ghost predicate SerialGroup(s: string, j: int, len: int)
  {
    0 <= j && 2 <= len && j + len <= |s| &&
    s[j] == '(' && s[j + len - 1] == ')' &&
    forall m :: j < m < j + len - 1 ==> IsDigit(s[m])
  }

  /** The first position at or after `i` that does not hold a digit. */
  function DigitsEnd(s: string, i: nat): (k: nat)
    requires i <= |s|
    ensures i <= k <= |s|
    ensures forall m :: i <= m < k ==> IsDigit(s[m])
    ensures k < |s| ==> !IsDigit(s[k])
    decreases |s| - i
  {
    if i < |s| && IsDigit(s[i]) then DigitsEnd(s, i + 1) else i
  }

  /** The length of the serial-number group that starts at `j`, if one does. */
  function GroupAt(s: string, j: nat): (g: Option<nat>)
    ensures g.Some? ==> SerialGroup(s, j, g.value)
    ensures forall len :: SerialGroup(s, j, len) ==> g == Some(len)
  {
    if j < |s| && s[j] == '(' then
      var k := DigitsEnd(s, j + 1);
      if k < |s| && s[k] == ')' then Some(k + 1 - j) else None
    else None
  }

  /**
   * The start of the last serial-number group that starts before `n`.  Greedy
   * `.*` backtracks from the end of the line, so this is the group the
   * expression captures.
   */
  function LastGroupBefore(s: string, n: nat): (r: Option<nat>)
    requires n <= |s|
    ensures r.Some? ==> r.value < n && GroupAt(s, r.value).Some?
    ensures r.Some? ==> forall j, len :: r.value < j < n && SerialGroup(s, j, len) ==> false
    ensures r.None? ==> forall j, len :: 0 <= j < n && SerialGroup(s, j, len) ==> false
  {
    if n == 0 then None
    else if GroupAt(s, n - 1).Some? then Some(n - 1)
    else LastGroupBefore(s, n - 1)
  }

  /** The name holds a serial-number group somewhere: `Regex.IsMatch` of the expression. */
  ghost predicate HasSerialGroup(s: string)
  {
    exists j, len :: SerialGroup(s, j, len)
  }

  /** `Regex.IsMatch`, computed. */
  function MatchesSerial(s: string): (b: bool)
    ensures b <==> HasSerialGroup(s)
  {
    LastGroupBefore(s, |s|).Some?
  }

  /** One line (no newline inside) with its last serial-number group removed. */
  function StripLine(line: string): (r: string)
    ensures |r| <= |line|
  {
    match LastGroupBefore(line, |line|)
    case None => line
    case Some(j) => line[..j] + line[j + GroupAt(line, j).value..]
  }

  /**
   * The name after `Regex.Replace(name, "$1")`.  `.` does not match a newline,
   * so every match lies within one line, and `Replace` rewrites every match:
   * each line loses its last serial-number group.
   */
  function StripSerial(s: string): (r: string)
    ensures |r| <= |s|
    decreases |s|
  {
    var nl := IndexOf(s, '\n');
    if nl == -1 then StripLine(s)
    else StripLine(s[..nl]) + "\n" + StripSerial(s[nl + 1..])
  }

  /** A group inside a slice of `s` is a group of `s`, shifted by where the slice starts. */
  lemma GroupInSlice(s: string, lo: nat, hi: nat, j: int, len: int)
    requires lo <= hi <= |s|
    requires SerialGroup(s[lo..hi], j, len)
    ensures SerialGroup(s, j + lo, len)
  {
  }

  /** A line without a serial-number group is left unchanged. */
  lemma StripLineKeepsPlainLine(line: string)
    requires !HasSerialGroup(line)
    ensures StripLine(line) == line
  {
  }

  /** A name without a serial-number group is left unchanged. */
  lemma {:induction false} StripSerialKeepsPlainNames(s: string)
    requires !HasSerialGroup(s)
    ensures StripSerial(s) == s
    decreases |s|
  {
    var nl := IndexOf(s, '\n');
    if nl == -1 {
      StripLineKeepsPlainLine(s);
    } else {
      var line, rest := s[..nl], s[nl + 1..];
      GroupsOfSplit(s, nl);
      StripLineKeepsPlainLine(line);
      StripSerialKeepsPlainNames(rest);
      assert s == line + "\n" + rest;
    }
  }

  /** A group of `s` lies wholly on one side of a newline at `nl`. */
  lemma GroupOnOneSide(s: string, nl: nat, j: int, len: int)
    requires nl < |s| && s[nl] == '\n'
    requires SerialGroup(s, j, len)
    ensures j + len <= nl ==> SerialGroup(s[..nl], j, len)
    ensures nl < j ==> SerialGroup(s[nl + 1..], j - nl - 1, len)
    ensures j + len <= nl || nl < j
  {
  }

  /** `s` holds a group exactly when one of the two sides of a newline does. */
  lemma GroupsOfSplit(s: string, nl: nat)
    requires nl < |s| && s[nl] == '\n'
    ensures HasSerialGroup(s) <==> HasSerialGroup(s[..nl]) || HasSerialGroup(s[nl + 1..])
  {
    if HasSerialGroup(s[..nl]) {
      var j, len :| SerialGroup(s[..nl], j, len);
      GroupInSlice(s, 0, nl, j, len);
    } else if HasSerialGroup(s[nl + 1..]) {
      var j, len :| SerialGroup(s[nl + 1..], j, len);
      GroupInSlice(s, nl + 1, |s|, j, len);
    }
    if HasSerialGroup(s) {
      var j, len :| SerialGroup(s, j, len);
      GroupOnOneSide(s, nl, j, len);
    }
  }

  /** Within one line, the same holds of the line's last group. */
  lemma StripLineShortens(line: string)
    ensures |StripLine(line)| <= |line|
    ensures |StripLine(line)| < |line| <==> HasSerialGroup(line)
  {
    match LastGroupBefore(line, |line|)
    case None =>
    case Some(j) =>
      assert SerialGroup(line, j, GroupAt(line, j).value);
  }

  /** Stripping never lengthens a name, and shortens exactly the names that hold a group. */
  lemma {:induction false} StripSerialShortens(s: string)
    ensures |StripSerial(s)| <= |s|
    ensures |StripSerial(s)| < |s| <==> HasSerialGroup(s)
    decreases |s|
  {
    var nl := IndexOf(s, '\n');
    if nl == -1 {
      StripLineShortens(s);
    } else {
      var line, rest := s[..nl], s[nl + 1..];
      assert |StripSerial(s)| == |StripLine(line)| + 1 + |StripSerial(rest)|;
      assert |s| == |line| + 1 + |rest|;
      StripSerialShortens(rest);
      StripLineShortens(line);
      GroupsOfSplit(s, nl);
      if HasSerialGroup(s) {
        assert |StripLine(line)| < |line| || |StripSerial(rest)| < |rest|;
      }
    }
  }

  /** The replacement rewrites a name exactly when `Regex.IsMatch` holds of it. */
  lemma StripSerialChangesIffMatch(s: string)
    ensures StripSerial(s) != s <==> MatchesSerial(s)
  {
    StripSerialShortens(s);
    if !MatchesSerial(s) {
      StripSerialKeepsPlainNames(s);
    }
  }

  /**
   * On a one-line name, the last serial-number group is removed and every
   * other character is kept, in order.
   */
  lemma StripSerialRemovesLastGroup(s: string, j: nat, len: nat)
    requires '\n' !in s
    requires SerialGroup(s, j, len)
    requires forall j', len' :: SerialGroup(s, j', len') ==> j' <= j
    ensures StripSerial(s) == s[..j] + s[j + len..]
  {
  }

  /** Where the pieces of `base + "(" + digits + ")"` sit. */
  lemma TrailingGroupLayout(base: string, digits: string, m: int)
    requires 0 <= m < |base| + |digits| + 2
    ensures var s := base + "(" + digits + ")";
      && |s| == |base| + |digits| + 2
      && (m < |base| ==> s[m] == base[m])
      && (m == |base| ==> s[m] == '(')
      && (|base| < m < |base| + |digits| + 1 ==> s[m] == digits[m - |base| - 1])
      && (m == |base| + |digits| + 1 ==> s[m] == ')')
  {
  }

  /** A one-line name ending in a serial-number group loses exactly that group. */
  lemma StripSerialDropsTrailingGroup(base: string, digits: string)
    requires '\n' !in base
    requires forall m :: 0 <= m < |digits| ==> IsDigit(digits[m])
    ensures StripSerial(base + "(" + digits + ")") == base
  {
    var s := base + "(" + digits + ")";
    var j, len := |base|, |digits| + 2;
    assert SerialGroup(s, j, len) by {
      TrailingGroupLayout(base, digits, j);
      TrailingGroupLayout(base, digits, j + len - 1);
      forall m | j < m < j + len - 1
        ensures IsDigit(s[m])
      {
        TrailingGroupLayout(base, digits, m);
      }
    }
    assert '\n' !in s by {
      forall m | 0 <= m < |s|
        ensures s[m] != '\n'
      {
        TrailingGroupLayout(base, digits, m);
      }
    }
    forall j', len' | SerialGroup(s, j', len')
      ensures j' <= j
    {
      TrailingGroupLayout(base, digits, j');
    }
    StripSerialRemovesLastGroup(s, j, len);
    assert s[..j] == base;
    assert s[j + len..] == [];
  }

  /** "foo (3)" becomes "foo ", and only the last group of "Cube (1) (2)" goes. */
  lemma StripSerialExamples()
    ensures StripSerial("foo (3)") == "foo "
    ensures StripSerial("Cube (1) (2)") == "Cube (1) "
  {
    assert "foo (3)" == "foo " + "(" + "3" + ")";
    StripSerialDropsTrailingGroup("foo ", "3");
    assert "Cube (1) (2)" == "Cube (1) " + "(" + "2" + ")";
    StripSerialDropsTrailingGroup("Cube (1) ", "2");
  }
}
