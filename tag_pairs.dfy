/**
 * PGN tag pairs (`[Name "value"]`, section 8.1 of the PGN standard) as the code reads
 * them: the global expression `\[(\w+)\s+"([^"]*)"\]` driven by an `exec` loop that
 * fills an object, a later pair overwriting an earlier one with the same name.
 * The extension's header parser and both archive servers run this same loop.
 */
module TagPairs {
  import opened Wrappers
  import opened Text
  import Patterns

  datatype Tag = Tag(name: string, value: string)

  /** A pair the expression can read back: a `\w+` name and a value without a quote. */
  predicate WellFormed(t: Tag) {
    t.name != [] && AllWordChars(t.name) && '"' !in t.value
  }

  /** `\[(\w+)\s+"([^"]*)"\]` tried at the start of `t`: the pair and the match length. */
  function TagAt(t: string): (r: Option<(Tag, nat)>)
    ensures r.Some? ==> 0 < r.value.1 <= |t| && WellFormed(r.value.0)
  {
    if t == [] || t[0] != '[' then None
    else
      // `\w+` is followed by `\s+`; a shorter name would be followed by a word character
      var a := SkipWhile(t, 1, IsWordChar);
      if a == 1 then None
      else
        var b := SkipWhile(t, a, IsSpace);
        if b == a || b == |t| || t[b] != '"' then None
        else
          var c := SkipWhile(t, b + 1, Patterns.NotQuote);
          if c + 1 >= |t| || t[c + 1] != ']' then None
          else
            Some((Tag(t[1..a], t[b + 1..c]), c + 2))
  }

  /**
   * The object the loop builds from `t`: every pair found, the last one of a name winning.
   * Every entry is a pair the expression matched: a `\w+` name, a value without a quote.
   */
  function Parse(t: string): (m: map<string, string>)
    ensures forall n | n in m :: WellFormed(Tag(n, m[n]))
    decreases |t|
  {
    if t == [] then map[]
    else match TagAt(t)
      case Some((tag, len)) => map[tag.name := tag.value] + Parse(t[len..])
      case None => Parse(t[1..])
  }

  /** One `re.exec(s)` with `re.lastIndex == from`: the next pair and the new `lastIndex`. */
  function Exec(s: string, from: nat): (r: Option<(Tag, nat)>)
    requires from <= |s|
    ensures r.Some? ==> from < r.value.1 <= |s| && WellFormed(r.value.0)
    decreases |s| - from
  {
    if from == |s| then None
    else match TagAt(s[from..])
      case Some((tag, len)) => Some((tag, from + len))
      case None => Exec(s, from + 1)
  }

  /** A pair found at `from`: `exec` returns it, and it is the first entry of the object. */
  lemma ExecFound(s: string, from: nat, tag: Tag, len: nat, e: nat)
    requires from < |s| && TagAt(s[from..]) == Some((tag, len)) && e == from + len
    ensures Exec(s, from) == Some((tag, e))
    ensures Parse(s[from..]) == map[tag.name := tag.value] + Parse(s[e..])
  {
    assert s[from..][len..] == s[e..];
  }

  /** No pair at `from`: `exec` and the object both move on one character. */
  lemma ExecSkipped(s: string, from: nat)
    requires from < |s| && TagAt(s[from..]).None?
    ensures Exec(s, from) == Exec(s, from + 1)
    ensures Parse(s[from..]) == Parse(s[from + 1..])
  {
    assert s[from..][1..] == s[from + 1..];
  }

  /** When `exec` finds nothing more, the rest of the text adds nothing to the object. */
  lemma {:induction false} ExecNone(s: string, from: nat)
    requires from <= |s| && Exec(s, from).None?
    ensures Parse(s[from..]) == map[]
    decreases |s| - from
  {
    if from == |s| {
      assert s[from..] == [];
    } else {
      ExecSkipped(s, from);
      ExecNone(s, from + 1);
    }
  }

  /** What `exec` skips contributes nothing: the object is the pair it returns, then the rest. */
  lemma {:induction false} ExecStep(s: string, from: nat, tag: Tag, e: nat)
    requires from <= |s| && Exec(s, from) == Some((tag, e))
    ensures Parse(s[from..]) == map[tag.name := tag.value] + Parse(s[e..])
    decreases |s| - from
  {
    match TagAt(s[from..])
    case Some((t, len)) =>
      ExecFound(s, from, t, len, from + len);
      assert t == tag && from + len == e;
      ExecFound(s, from, tag, len, e);
    case None =>
      ExecSkipped(s, from);
      ExecStep(s, from + 1, tag, e);
  }

  /** The header loop: `while ((m = re.exec(s))) headers[m[1]] = m[2];`. */
  method CollectTags(s: string) returns (headers: map<string, string>)
    ensures headers == Parse(s)
    ensures forall n | n in headers :: WellFormed(Tag(n, headers[n]))
  {
    headers := map[];
    var last := 0;
    var m := Exec(s, last);
    assert s[0..] == s;
    while m.Some?
      invariant last <= |s|
      invariant m == Exec(s, last)
      invariant Parse(s) == headers + Parse(s[last..])
      decreases |s| - last
    {
      var (tag, e) := m.value;
      ExecStep(s, last, tag, e);
      UpdateThenUnion(headers, tag.name, tag.value, Parse(s[e..]));
      headers := headers[tag.name := tag.value];
      last := e;
      m := Exec(s, last);
    }
    ExecNone(s, last);
    assert headers + map[] == headers;
  }

  lemma UpdateThenUnion(h: map<string, string>, n: string, v: string, rest: map<string, string>)
    ensures h + (map[n := v] + rest) == h[n := v] + rest
  {
  }

  /** `[Name "value"]`, the line the archive servers print for a pair. */
  function Line(t: Tag): string {
    "[" + t.name + " \"" + t.value + "\"]"
  }

  function Lines(tags: seq<Tag>): (r: seq<string>)
    ensures |r| == |tags|
    ensures forall k | 0 <= k < |tags| :: r[k] == Line(tags[k])
  {
    if tags == [] then [] else [Line(tags[0])] + Lines(tags[1..])
  }

  /** The header block: one line per pair, joined by newlines. */
  function Render(tags: seq<Tag>): string {
    Join(Lines(tags), "\n")
  }

  /** The object a list of pairs denotes: later pairs of the same name win. */
  function ToMap(tags: seq<Tag>): map<string, string>
    decreases |tags|
  {
    if tags == [] then map[] else map[tags[0].name := tags[0].value] + ToMap(tags[1..])
  }

  /** When no name repeats, the object holds exactly the names listed, each with its own value. */
  lemma {:induction false} ToMapDistinct(tags: seq<Tag>)
    requires forall i, j | 0 <= i < j < |tags| :: tags[i].name != tags[j].name
    ensures forall k | 0 <= k < |tags| :: tags[k].name in ToMap(tags) && ToMap(tags)[tags[k].name] == tags[k].value
    ensures forall n | n in ToMap(tags) :: exists k | 0 <= k < |tags| :: tags[k].name == n
    decreases |tags|
  {
    if tags != [] {
      var rest := tags[1..];
      ToMapDistinct(rest);
      forall n | n in ToMap(tags) ensures exists k | 0 <= k < |tags| :: tags[k].name == n {
        if n != tags[0].name {
          var k :| 0 <= k < |rest| && rest[k].name == n;
          assert tags[k + 1].name == n;
        }
      }
      forall k | 0 <= k < |tags| ensures tags[k].name in ToMap(tags) && ToMap(tags)[tags[k].name] == tags[k].value {
        if k == 0 {
          assert tags[0].name !in ToMap(rest);
        } else {
          assert tags[k] == rest[k - 1];
        }
      }
    }
  }

  lemma TagAtLine(t: Tag, rest: string)
    requires WellFormed(t)
    ensures TagAt(Line(t) + rest) == Some((t, |Line(t)|))
  {
    var s := Line(t) + rest;
    var a := 1 + |t.name|;
    assert s[a] == ' ';
    forall k | 1 <= k < a ensures IsWordChar(s[k]) { assert s[k] == t.name[k - 1]; }
    SkipWhileUnique(s, 1, IsWordChar, a);
    assert s[a + 1] == '"';
    SkipWhileUnique(s, a, IsSpace, a + 1);
    var c := a + 2 + |t.value|;
    forall k | a + 2 <= k < c ensures Patterns.NotQuote(s[k]) {
      assert s[k] == t.value[k - (a + 2)];
    }
    assert s[c] == '"';
    SkipWhileUnique(s, a + 2, Patterns.NotQuote, c);
    assert s[c + 1] == ']';
    assert s[1..a] == t.name;
    assert s[a + 2..c] == t.value;
  }

  /** Reading back the rendered header block gives the pairs that were printed. */
  lemma {:induction false} ParseRender(tags: seq<Tag>)
    requires forall k | 0 <= k < |tags| :: WellFormed(tags[k])
    ensures Parse(Render(tags)) == ToMap(tags)
    decreases |tags|
  {
    if tags == [] {
    } else if |tags| == 1 {
      var s := Line(tags[0]);
      TagAtLine(tags[0], []);
      assert s + [] == s;
      assert s[|s|..] == [];
      assert tags[1..] == [];
    } else {
      var rest := Render(tags[1..]);
      var s := Line(tags[0]) + ("\n" + rest);
      assert Lines(tags)[1..] == Lines(tags[1..]);
      assert Render(tags) == s;
      TagAtLine(tags[0], "\n" + rest);
      assert s[|Line(tags[0])|..] == "\n" + rest;
      assert ("\n" + rest)[1..] == rest;
      ParseRender(tags[1..]);
    }
  }
}
