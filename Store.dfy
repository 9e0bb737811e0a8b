/**
  The process environment store and the operations of l3xenv.js that change
  or loop over it: the merge step of `config`, `config` itself once the file
  text has been read, and `require` (`requireVars`).
 */
module Store {
  import opened Wrappers
  import EnvFile
  import Accessors

  /** The store after copying in every parsed entry whose key it does not hold yet. */
  function Merged(store: map<string, string>, parsed: map<string, string>): map<string, string> {
    map k | k in store.Keys + parsed.Keys :: if k in store then store[k] else parsed[k]
  }

  /** What `config` returns: `{ parsed }`, or `{ error }` when the file could not be read. */
  datatype LoadResult = Loaded(parsed: map<string, string>) | ReadFailed

  class Env {
    /** `process.env`. */
    var vars: map<string, string>

    constructor (initial: map<string, string>)
      ensures vars == initial
    {
      vars := initial;
    }

    /** The merge loop of `config`: a parsed key is written only when the store does not hold it. */
    method Merge(parsed: map<string, string>)
      modifies this
      ensures vars == Merged(old(vars), parsed)
    {
      ghost var start := vars;
      var pending := parsed.Keys;
      while pending != {}
        invariant pending <= parsed.Keys
        invariant vars == Merged(start, parsed - pending)
        decreases pending
      {
        var key :| key in pending;
        ghost var done := parsed - pending;
        MergeOne(start, done, key, parsed[key]);
        if key !in vars {
          vars := vars[key := parsed[key]];
        }
        pending := pending - {key};
        assert parsed - pending == done[key := parsed[key]];
      }
      assert parsed - pending == parsed;
    }

    /**
      `config` after the file has been read: `read` is the file text, or `None`
      when reading threw. The text is parsed against the store as it is, then
      merged; a failed read leaves the store alone.
     */
    method Config(read: Option<string>) returns (r: LoadResult)
      modifies this
      ensures read.None? ==> r == ReadFailed && vars == old(vars)
      ensures read.Some? ==> r == Loaded(EnvFile.ParseText(read.value, old(vars)))
      ensures read.Some? ==> vars == Merged(old(vars), r.parsed)
    {
      if read.None? {
        return ReadFailed;
      }
      var parsed := EnvFile.Parse(read.value, vars);
      Merge(parsed);
      r := Loaded(parsed);
    }

    /** `require(names)`: fails on the first name, in list order, that `has` rejects. */
    method RequireVars(names: seq<string>) returns (r: Outcome<Accessors.AccessError>)
      ensures r.Pass? <==> forall i :: 0 <= i < |names| ==> Accessors.Has(vars, names[i])
      ensures r.Fail? ==> exists i :: 0 <= i < |names| && r.error == Accessors.Missing(names[i]) &&
                                      !Accessors.Has(vars, names[i]) &&
                                      (forall j :: 0 <= j < i ==> Accessors.Has(vars, names[j]))
    {
      var i := 0;
      while i < |names|
        invariant 0 <= i <= |names|
        invariant forall j :: 0 <= j < i ==> Accessors.Has(vars, names[j])
      {
        if !Accessors.Has(vars, names[i]) {
          return Fail(Accessors.Missing(names[i]));
        }
        i := i + 1;
      }
      return Pass;
    }
  }

  /** Merging one more entry: it is written only when neither the store nor the earlier entries hold its key. */
  lemma MergeOne(store: map<string, string>, parsed: map<string, string>, k: string, v: string)
    requires k !in parsed
    ensures var m := Merged(store, parsed);
      Merged(store, parsed[k := v]) == if k in m then m else m[k := v]
  {
  }

  /** A parsed key the store lacked now holds its parsed value. */
  lemma MergeFillsAbsent(store: map<string, string>, parsed: map<string, string>, k: string)
    requires k in parsed && k !in store
    ensures k in Merged(store, parsed) && Merged(store, parsed)[k] == parsed[k]
  {
  }

  /** A key the store held keeps its value, even an empty one. */
  lemma MergeKeepsPresent(store: map<string, string>, parsed: map<string, string>, k: string)
    requires k in store
    ensures k in Merged(store, parsed) && Merged(store, parsed)[k] == store[k]
  {
  }

  /** No key is removed and no key from elsewhere is added. */
  lemma MergeKeys(store: map<string, string>, parsed: map<string, string>)
    ensures Merged(store, parsed).Keys == store.Keys + parsed.Keys
  {
  }

  /** Entries for keys the store already holds change nothing. */
  lemma MergeCovered(store: map<string, string>, parsed: map<string, string>)
    requires parsed.Keys <= store.Keys
    ensures Merged(store, parsed) == store
  {
  }

  /** Merging the same entries twice is merging them once. */
  lemma MergeIdempotent(store: map<string, string>, parsed: map<string, string>)
    ensures Merged(Merged(store, parsed), parsed) == Merged(store, parsed)
  {
  }

  /** First writer wins across loads: a later load does not change a key an earlier load set. */
  lemma FirstLoadWins(store: map<string, string>, first: map<string, string>, second: map<string, string>, k: string)
    requires k in first && k !in store
    ensures Merged(Merged(store, first), second)[k] == first[k]
  {
  }

  /**
    Loading the same text twice leaves the store as after the first load, even
    though the second parse may interpolate differently against the grown store.
   */
  lemma LoadTwice(store: map<string, string>, src: string)
    ensures var once := Merged(store, EnvFile.ParseText(src, store));
      Merged(once, EnvFile.ParseText(src, once)) == once
  {
    var lines := EnvFile.SplitLines(src);
    var first := EnvFile.ParseText(src, store);
    var once := Merged(store, first);
    EnvFile.ParseKeys(lines, store, map[]);
    MergeKeys(store, first);
    EnvFile.ParseKeys(lines, once, map[]);
    MergeCovered(once, EnvFile.ParseText(src, once));
  }
}
