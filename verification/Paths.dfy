// The lexical path operations the listing parser leans on: path/filepath's
// Clean and Join for '/'-separated paths.
module Paths {

  const SEPARATOR := '/'

  function Split(s: string): (parts: seq<string>)
    ensures parts != []
  {
    if s == [] then [""]
    else
      var rest := Split(s[1..]);
      if s[0] == SEPARATOR then [""] + rest else [[s[0]] + rest[0]] + rest[1..]
  }

  function Intercalate(parts: seq<string>): string
    requires parts != []
  {
    if |parts| == 1 then parts[0] else parts[0] + [SEPARATOR] + Intercalate(parts[1..])
  }

  // What one more component makes of those kept so far: drop empty and "." ones, let
  // ".." cancel the component before it, keep leading ".." only in a relative path.
  function Keep(rooted: bool, kept: seq<string>, part: string): seq<string>
  {
    if part == "" || part == "." then kept
    else if part != ".." then kept + [part]
    else if kept != [] && kept[|kept| - 1] != ".." then kept[..|kept| - 1]
    else if rooted then kept
    else kept + [part]
  }

  // One pass over the components.
  function Reduce(rooted: bool, kept: seq<string>, parts: seq<string>): seq<string>
    decreases |parts|
  {
    if parts == [] then kept else Reduce(rooted, Keep(rooted, kept, parts[0]), parts[1..])
  }

  function Clean(path: string): string
  {
    if path == "" then "."
    else
      var rooted := path[0] == SEPARATOR;
      var kept := Reduce(rooted, [], Split(path));
      if kept == [] then (if rooted then "/" else ".")
      else (if rooted then "/" else "") + Intercalate(kept)
  }

  // Join skips leading empty elements, joins the rest and cleans the result.
  function Join(elements: seq<string>): string
  {
    if elements == [] then ""
    else if elements[0] == "" then Join(elements[1..])
    else Clean(Intercalate(elements))
  }

  // A name that can stand for one directory entry.
  predicate Plain(name: string)
  {
    name != "" && name != "." && name != ".." && SEPARATOR !in name
  }

  predicate AllPlain(names: seq<string>)
  {
    forall i :: 0 <= i < |names| ==> Plain(names[i])
  }

  predicate NoSeparators(parts: seq<string>) { forall i :: 0 <= i < |parts| ==> SEPARATOR !in parts[i] }

  lemma {:induction false} SplitPart(name: string, rest: string)
    requires SEPARATOR !in name
    ensures Split(name) == [name]
    ensures Split(name + [SEPARATOR] + rest) == [name] + Split(rest)
  {
    var s := name + [SEPARATOR] + rest;
    if name == "" {
      assert s[1..] == rest;
    } else {
      SplitPart(name[1..], rest);
      assert s[1..] == name[1..] + [SEPARATOR] + rest;
      assert [name[0]] + name[1..] == name;
    }
  }

  // Splitting undoes joining, so a joined path names exactly its components.
  lemma {:induction false} SplitIntercalate(names: seq<string>)
    requires names != [] && NoSeparators(names)
    ensures Split(Intercalate(names)) == names
  {
    if |names| == 1 {
      SplitPart(names[0], "");
    } else {
      SplitIntercalate(names[1..]);
      SplitPart(names[0], Intercalate(names[1..]));
    }
  }

  lemma {:induction false} ReducePlain(rooted: bool, kept: seq<string>, parts: seq<string>)
    requires AllPlain(parts)
    ensures Reduce(rooted, kept, parts) == kept + parts
    decreases |parts|
  {
    if parts != [] {
      ReducePlain(rooted, kept + [parts[0]], parts[1..]);
      assert kept + [parts[0]] + parts[1..] == kept + parts;
    }
  }

  lemma IntercalateHead(names: seq<string>)
    requires names != [] && AllPlain(names)
    ensures Intercalate(names) != "" && Intercalate(names)[0] == names[0][0] != SEPARATOR
  {
  }

  lemma CleanPlain(names: seq<string>)
    requires names != [] && AllPlain(names)
    ensures Clean(Intercalate(names)) == Intercalate(names)
  {
    IntercalateHead(names);
    SplitIntercalate(names);
    var path := Intercalate(names);
    ReducePlain(false, [], names);
    assert [] + names == names;
    assert Reduce(false, [], Split(path)) == names;
    assert "" + path == path;
  }

  // On plain names Clean changes nothing and Join is plain concatenation with
  // separators, from which the names can be read back.
  lemma JoinPlain(names: seq<string>)
    requires names != [] && AllPlain(names)
    ensures Join(names) == Intercalate(names)
    ensures Split(Join(names)) == names
  {
    assert Plain(names[0]);
    CleanPlain(names);
    SplitIntercalate(names);
  }

  // ------------------------------------------------------------ dots and parents

  lemma {:induction false} ReduceSplit(rooted: bool, kept: seq<string>, a: seq<string>, b: seq<string>)
    ensures Reduce(rooted, kept, a + b) == Reduce(rooted, Reduce(rooted, kept, a), b)
    decreases |a|
  {
    if a == [] {
      assert a + b == b;
    } else {
      assert (a + b)[0] == a[0] && (a + b)[1..] == a[1..] + b;
      ReduceSplit(rooted, Keep(rooted, kept, a[0]), a[1..], b);
    }
  }

  // A cleaned path climbs only at its start, and not at all from the root.
  predicate Normal(rooted: bool, kept: seq<string>)
  {
    forall i :: 0 <= i < |kept| ==>
      && kept[i] != "" && kept[i] != "." && SEPARATOR !in kept[i]
      && (kept[i] == ".." ==> !rooted && forall j :: 0 <= j < i ==> kept[j] == "..")
  }

  lemma {:induction false} ReduceNormal(rooted: bool, kept: seq<string>, parts: seq<string>)
    requires Normal(rooted, kept) && NoSeparators(parts)
    ensures Normal(rooted, Reduce(rooted, kept, parts))
    decreases |parts|
  {
    if parts != [] {
      KeepNormal(rooted, kept, parts[0]);
      ReduceNormal(rooted, Keep(rooted, kept, parts[0]), parts[1..]);
    }
  }

  lemma KeepNormal(rooted: bool, kept: seq<string>, part: string)
    requires Normal(rooted, kept) && SEPARATOR !in part
    ensures Normal(rooted, Keep(rooted, kept, part))
  {
    if part == ".." && (kept == [] || kept[|kept| - 1] == "..") {
      assert forall j :: 0 <= j < |kept| ==> kept[j] == "..";
    }
  }

  // A normal list is what it reduces to.
  lemma {:induction false} NormalStays(rooted: bool, kept: seq<string>, rest: seq<string>)
    requires Normal(rooted, kept + rest)
    ensures Reduce(rooted, kept, rest) == kept + rest
    decreases |rest|
  {
    if rest == [] {
      assert kept + rest == kept;
    } else {
      var all := kept + rest;
      assert all[|kept|] == rest[0];
      if rest[0] == ".." && kept != [] { assert all[|kept| - 1] == kept[|kept| - 1] == ".."; }
      assert Keep(rooted, kept, rest[0]) == kept + [rest[0]];
      assert kept + [rest[0]] + rest[1..] == all;
      NormalStays(rooted, kept + [rest[0]], rest[1..]);
    }
  }

  // Elements are joined from the first that is not empty on, and cleaned.
  lemma {:induction false} JoinExactly(empties: seq<string>, elements: seq<string>)
    requires forall i :: 0 <= i < |empties| ==> empties[i] == ""
    ensures Join(empties) == ""
    ensures elements != [] && elements[0] != "" ==> Join(empties + elements) == Clean(Intercalate(elements))
  {
    if empties == [] {
      assert empties + elements == elements;
    } else {
      JoinExactly(empties[1..], elements);
      assert (empties + elements)[1..] == empties[1..] + elements;
    }
  }

  // What cleaning does, step by step: an empty or "." component changes nothing, ".."
  // takes back the name before it, and above the root there is nothing to climb to.
  lemma ReduceRewrites(rooted: bool, a: seq<string>, b: seq<string>, name: string)
    ensures Reduce(rooted, [], a + [""] + b) == Reduce(rooted, [], a + ["."] + b) == Reduce(rooted, [], a + b)
    ensures Plain(name) ==> Reduce(rooted, [], a + [name, ".."] + b) == Reduce(rooted, [], a + b)
    ensures Reduce(true, [], [".."] + b) == Reduce(true, [], b)
  {
    var kept := Reduce(rooted, [], a);
    Inserted(rooted, a, [""], b);
    Inserted(rooted, a, ["."], b);
    Inserted(rooted, a, [name, ".."], b);
    Inserted(true, [], [".."], b);
    ReduceSplit(rooted, [], a, b);
    assert [""][1..] == [] && ["."][1..] == [] && [".."][1..] == [];
    if Plain(name) {
      assert [name, ".."][1..] == [".."] && (kept + [name])[..|kept|] == kept;
      assert Reduce(rooted, kept, [name, ".."]) == Reduce(rooted, kept + [name], [".."]) == kept;
    }
    assert [] + [".."] + b == [".."] + b;
  }

  lemma Inserted(rooted: bool, a: seq<string>, middle: seq<string>, b: seq<string>)
    ensures Reduce(rooted, [], a + middle + b) == Reduce(rooted, Reduce(rooted, Reduce(rooted, [], a), middle), b)
  {
    ReduceSplit(rooted, [], a + middle, b);
    ReduceSplit(rooted, [], a, middle);
  }

  lemma {:induction false} SplitParts(s: string)
    ensures NoSeparators(Split(s))
  {
    if s != [] { SplitParts(s[1..]); }
  }

  // The components a cleaned path consists of.
  lemma CleanComponents(path: string) returns (rooted: bool, kept: seq<string>)
    requires path != ""
    ensures rooted == (path[0] == SEPARATOR) && kept == Reduce(rooted, [], Split(path)) && Normal(rooted, kept)
    ensures Clean(path) == (if kept == [] then (if rooted then "/" else ".") else (if rooted then "/" else "") + Intercalate(kept))
  {
    rooted := path[0] == SEPARATOR;
    kept := Reduce(rooted, [], Split(path));
    SplitParts(path);
    ReduceNormal(rooted, [], Split(path));
  }

  // A clean path is clean: it climbs only at its start, names nothing twice removed, and
  // cleaning it again changes nothing.
  lemma CleanIdempotent(path: string)
    ensures Clean(Clean(path)) == Clean(path)
  {
    DotIsClean();
    if path != "" {
      var rooted, kept := CleanComponents(path);
      if kept != [] { NormalIsClean(rooted, kept); }
    }
  }

  lemma DotIsClean()
    ensures Clean(".") == "." && Clean("/") == "/"
  {
    SplitPart(".", "");
    SplitPart("", "");
    assert "" + "/" + "" == "/" && [""] + [""] == ["", ""];
    assert ["", ""][1..] == [""] && [""][1..] == [] && ["."][1..] == [];
  }

  lemma NormalIsClean(rooted: bool, kept: seq<string>)
    requires kept != [] && Normal(rooted, kept)
    ensures var path := (if rooted then "/" else "") + Intercalate(kept); Clean(path) == path
  {
    var body := Intercalate(kept);
    var path := (if rooted then "/" else "") + body;
    SplitIntercalate(kept);
    NormalHead(rooted, kept);
    NormalStays(rooted, [], kept);
    assert [] + kept == kept;
    if rooted {
      SplitPart("", body);
      assert "" + "/" + body == path && Split(path) == [""] + kept && ([""] + kept)[1..] == kept;
    } else {
      assert path == body;
    }
  }

  lemma NormalHead(rooted: bool, kept: seq<string>)
    requires kept != [] && Normal(rooted, kept)
    ensures Intercalate(kept) != "" && Intercalate(kept)[0] != SEPARATOR
  {
    assert kept[0] != "" && kept[0][0] in kept[0];
  }
}
