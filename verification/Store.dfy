/** A directory on disk: what the backup, sync and retention code reads and changes. */
module Store {
  import opened Text

  datatype Entry = File(content: string) | Subdir

  /** Outcome of a `Stat` on a path. */
  datatype Stat = StatError | NotDirectory | IsDirectory

  /** Where a profile's backups go and what is done with them there. */
  datatype Destination = Destination(path: string, keep: int, owner: string, mode: string)

  /** The directory's entries after an operation, and whether it returned without error. */
  datatype Outcome = Outcome(entries: map<string, Entry>, ok: bool)

  ghost predicate NameSorted(names: seq<string>) {
    forall i, j :: 0 <= i < j < |names| ==> NameLess(names[i], names[j])
  }

  class Directory {
    var entries: map<string, Entry>

    constructor (initial: map<string, Entry>)
      ensures entries == initial
    {
      entries := initial;
    }

    /** `os.Remove`; `fails` is the verdict of the operating system on an existing entry. */
    method Remove(name: string, fails: bool) returns (ok: bool)
      modifies this
      ensures ok <==> name in old(entries) && !fails
      ensures entries == if ok then old(entries) - {name} else old(entries)
    {
      ok := name in entries && !fails;
      if ok {
        entries := entries - {name};
      }
    }

    /** Open for writing, creating or truncating, then write `content`. */
    method Write(name: string, content: string, fails: bool) returns (ok: bool)
      modifies this
      ensures ok <==> !fails && !(name in old(entries) && old(entries)[name].Subdir?)
      ensures entries == if ok then old(entries)[name := File(content)] else old(entries)
    {
      ok := !fails && !(name in entries && entries[name].Subdir?);
      if ok {
        entries := entries[name := File(content)];
      }
    }

    /** `filepath.Glob` with `*.zip`: the matching names in sorted order. It reports no error when it
        cannot read the directory, or not all of it; `missed` are the names it then does not return. */
    method ListZips(missed: string -> bool) returns (names: seq<string>)
      ensures NameSorted(names)
      ensures forall x :: x in names <==> x in entries && HasSuffix(x, ".zip") && !missed(x)
    {
      names := SortNames(set x | x in entries.Keys && HasSuffix(x, ".zip") && !missed(x));
    }

    /** `os.ReadDir`: all names in sorted order. */
    method ReadDir() returns (names: seq<string>)
      ensures NameSorted(names)
      ensures forall x :: x in names <==> x in entries
    {
      names := SortNames(entries.Keys);
    }
  }

  method SortNames(all: set<string>) returns (names: seq<string>)
    ensures NameSorted(names)
    ensures forall x :: x in names <==> x in all
  {
    var rest := all;
    names := [];
    while rest != {}
      invariant rest <= all
      invariant forall x :: x in all <==> x in rest || x in names
      invariant NameSorted(names)
      invariant forall i, x :: 0 <= i < |names| && x in rest ==> NameLess(names[i], x)
      decreases |rest|
    {
      var first := FirstName(rest);
      names := names + [first];
      rest := rest - {first};
    }
  }

  method FirstName(names: set<string>) returns (first: string)
    requires names != {}
    ensures first in names && forall y :: y in names && y != first ==> NameLess(first, y)
  {
    first :| first in names;
    var rest := names - {first};
    while rest != {}
      invariant rest <= names && first in names
      invariant forall y :: y in names - rest && y != first ==> NameLess(first, y)
      decreases |rest|
    {
      var x :| x in rest;
      NameLessTotal(x, first);
      if NameLess(x, first) {
        forall y | y in names - rest && y != first
          ensures NameLess(x, y)
        {
          NameLessTransitive(x, first, y);
        }
        first := x;
      }
      rest := rest - {x};
    }
  }
}
