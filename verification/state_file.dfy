/** The files and side effects the session components share. The persisted
    session intent is one small text file; every writer replaces it by
    writing `<path>.tmp` and renaming that over the real path, so a reader
    sees the old content or the new, never a mix. */
module StateFile {

  /** The journal tag the trigger and the supervisor log under. */
  const JournalTag := "steamos-diy"

  /** Regular files by path; a path that is not a key is a missing file. */
  type Fs = map<string, string>

  /** An externally visible step of a component, in the order it happens. */
  datatype Effect =
    | Log(tag: string, msg: string)            // `logger -t <tag> <msg>`
    | WriteFile(path: string, content: string) // `open(path, "w").write(content)`
    | Rename(src: string, dst: string)         // `os.replace(src, dst)`
    | Spawn(cmd: seq<string>)                  // a `subprocess.run(cmd)` that started

  /** What one effect does to the files. Renaming a missing file raises in
      Python; no flow of this model renames a file it has not just written. */
  function ApplyEffect(fs: Fs, e: Effect): (fs': Fs)
    ensures e.WriteFile? ==> fs' == fs[e.path := e.content]
    ensures e.Rename? && e.src in fs && e.src != e.dst ==>
      && e.dst in fs' && fs'[e.dst] == fs[e.src]
      && e.src !in fs'
      && forall p :: p != e.src && p != e.dst ==> (p in fs' <==> p in fs) && (p in fs ==> fs'[p] == fs[p])
    ensures e.Log? || e.Spawn? ==> fs' == fs
  {
    match e
    case WriteFile(p, c) => fs[p := c]
    case Rename(src, dst) => if src in fs then (fs - {src})[dst := fs[src]] else fs
    case _ => fs
  }

  /** The files after a sequence of effects. */
  function Apply(fs: Fs, es: seq<Effect>): Fs
    decreases |es|
  {
    if |es| == 0 then fs else Apply(ApplyEffect(fs, es[0]), es[1..])
  }

  lemma {:induction false} ApplyConcat(fs: Fs, a: seq<Effect>, b: seq<Effect>)
    ensures Apply(fs, a + b) == Apply(Apply(fs, a), b)
    decreases |a|
  {
    if |a| == 0 {
      assert a + b == b;
    } else {
      assert (a + b)[1..] == a[1..] + b;
      ApplyConcat(ApplyEffect(fs, a[0]), a[1..], b);
    }
  }

  /** Effects that neither write nor rename leave the files alone. */
  predicate Harmless(es: seq<Effect>) {
    forall i :: 0 <= i < |es| ==> es[i].Log? || es[i].Spawn?
  }

  lemma {:induction false} ApplyHarmless(fs: Fs, es: seq<Effect>)
    requires Harmless(es)
    ensures Apply(fs, es) == fs
    decreases |es|
  {
    if |es| > 0 {
      ApplyHarmless(fs, es[1..]);
    }
  }

  function TmpPath(path: string): string {
    path + ".tmp"
  }

  lemma TmpPathDiffers(path: string)
    ensures TmpPath(path) != path
  {
    assert |TmpPath(path)| == |path| + 4;
  }

  /** `tmp = f"{path}.tmp"; open(tmp, "w").write(content); os.replace(tmp, path)`. */
  function AtomicWrite(path: string, content: string): (es: seq<Effect>)
    ensures |es| == 2
    ensures es[0].WriteFile? && es[0].path != path
    ensures es[1].Rename? && es[1].dst == path
  {
    TmpPathDiffers(path);
    [WriteFile(TmpPath(path), content), Rename(TmpPath(path), path)]
  }

  /** After the write the path holds exactly `content`, the temporary file
      is gone, and no other file has changed. */
  lemma AtomicWriteResult(fs: Fs, path: string, content: string)
    ensures path in Apply(fs, AtomicWrite(path, content))
    ensures Apply(fs, AtomicWrite(path, content))[path] == content
    ensures TmpPath(path) !in Apply(fs, AtomicWrite(path, content))
    ensures forall p :: p != path && p != TmpPath(path) ==>
      && (p in Apply(fs, AtomicWrite(path, content)) <==> p in fs)
      && (p in fs ==> Apply(fs, AtomicWrite(path, content))[p] == fs[p])
  {
    TmpPathDiffers(path);
    var tmp := TmpPath(path);
    var es := AtomicWrite(path, content);
    var mid := ApplyEffect(fs, es[0]);
    assert mid == fs[tmp := content];
    var fin := ApplyEffect(mid, es[1]);
    assert Apply(fs, es) == Apply(fin, []) by {
      assert es[1..][1..] == [];
    }
  }

  /** What a reader of `path` can observe. */
  predicate Reads(fs: Fs, path: string, content: string) {
    path in fs && fs[path] == content
  }

  /** Crash safety: stopped after any number of its steps, the write leaves
      `path` either exactly as it was or holding exactly `content`. */
  lemma AtomicWriteNeverTorn(fs: Fs, path: string, content: string, n: nat)
    requires n <= 2
    ensures var mid := Apply(fs, AtomicWrite(path, content)[..n]);
      || Reads(mid, path, content)
      || (path in fs && Reads(mid, path, fs[path]))
      || (path !in fs && path !in mid)
  {
    TmpPathDiffers(path);
    var es := AtomicWrite(path, content);
    if n == 0 {
      assert es[..n] == [];
    } else if n == 1 {
      assert es[..n] == [es[0]];
      assert Apply(fs, es[..n]) == Apply(ApplyEffect(fs, es[0]), []);
    } else {
      assert es[..n] == es;
      AtomicWriteResult(fs, path, content);
    }
  }
}
