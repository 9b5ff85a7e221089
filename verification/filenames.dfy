/**
 * The local file an item is downloaded to (`getLocalFilename`) and the
 * file the ffmpeg engine is told to write.
 */
module Filenames {
  import opened Items
  import opened Paths

  const Untitled := "untitled"

  /** `item.video.title ? item.video.title : 'untitled'`: an absent or empty title is replaced. */
  function TitleOrDefault(v: Video): (t: string)
    ensures t != ""
    ensures v.title.Some? && v.title.value != "" ==> t == v.title.value
    ensures v.title.None? || v.title.value == "" ==> t == Untitled
  {
    if v.title.Some? && v.title.value != "" then v.title.value else Untitled
  }

  /** The template with each placeholder replaced everywhere, in the source's order. */
  function RenderTemplate(template: string, item: Item): (r: string)
    ensures '%' !in template ==> r == template
  {
    assert '%' !in template ==> ReplaceAll(template, "%%username%%", item.user.name) == template &&
                                ReplaceAll(template, "%%userid%%", item.user.id) == template &&
                                ReplaceAll(template, "%%videoid%%", item.video.id) == template &&
                                ReplaceAll(template, "%%videotitle%%", TitleOrDefault(item.video)) == template &&
                                ReplaceAll(template, "%%videotime%%", item.video.time) == template by {
      if '%' !in template {
        ReplaceAllAbsentChar(template, "%%username%%", item.user.name, 0);
        ReplaceAllAbsentChar(template, "%%userid%%", item.user.id, 0);
        ReplaceAllAbsentChar(template, "%%videoid%%", item.video.id, 0);
        ReplaceAllAbsentChar(template, "%%videotitle%%", TitleOrDefault(item.video), 0);
        ReplaceAllAbsentChar(template, "%%videotime%%", item.video.time, 0);
      }
    }
    var n1 := ReplaceAll(template, "%%username%%", item.user.name);
    var n2 := ReplaceAll(n1, "%%userid%%", item.user.id);
    var n3 := ReplaceAll(n2, "%%videoid%%", item.video.id);
    var n4 := ReplaceAll(n3, "%%videotitle%%", TitleOrDefault(item.video));
    ReplaceAll(n4, "%%videotime%%", item.video.time)
  }

  /** The file name taken from the stream address: its basename with the first `m3u8` turned into `ts`. */
  function DefaultName(url: string): (r: string)
    ensures '/' !in r
  {
    NoSlashAfterReplaceFirst(Basename(url), "m3u8", "ts");
    ReplaceFirst(Basename(url), "m3u8", "ts")
  }

  /** The default path: the default name, in the download directory. */
  function DefaultPath(item: Item, dir: string): (r: string)
    ensures Basename(r) == DefaultName(item.video.url)
    ensures dir != [] && dir[|dir| - 1] != '/' ==> Dirname(r) == dir
  {
    var name := DefaultName(item.video.url);
    BasenamePlain(name);
    Join(dir, name)
  }

  /** Replacing inside a string without `/` by a text without `/` gives no `/`. */
  lemma NoSlashAfterReplaceFirst(s: string, pat: string, rep: string)
    requires '/' !in s && '/' !in rep
    ensures '/' !in ReplaceFirst(s, pat, rep)
  {
    var i := IndexOf(s, pat);
    if i >= 0 {
      var r := s[..i] + rep + s[i + |pat|..];
      forall k | 0 <= k < |r| ensures r[k] != '/' {
        if k < i {
          assert r[k] == s[k];
        } else if k >= i + |rep| {
          assert r[k] == s[k - |rep| + |pat|];
        }
      }
    }
  }

  /** The templated name is used unless it renders to the empty string (index.js:314). */
  predicate UsesTemplate(item: Item, s: Settings)
  {
    s.fileMode != 0 && RenderTemplate(s.fileTemplate, item) != ""
  }

  /**
   * The path before the playlist correction: the default path in mode 0 or
   * when the template renders empty, otherwise the sanitised rendered name
   * with `.ts` appended, in the download directory.
   */
  function ChosenPath(item: Item, s: Settings): (r: string)
    ensures !UsesTemplate(item, s) ==> Basename(r) == DefaultName(item.video.url)
    ensures UsesTemplate(item, s) ==>
              Basename(r) == Basename(Sanitize(RenderTemplate(s.fileTemplate, item)) + ".ts")
    ensures s.directory != [] && s.directory[|s.directory| - 1] != '/' &&
            (!UsesTemplate(item, s) || '/' !in RenderTemplate(s.fileTemplate, item)) ==>
              Dirname(r) == s.directory
  {
    if s.fileMode == 0 then DefaultPath(item, s.directory)
    else
      var name := RenderTemplate(s.fileTemplate, item);
      if name == "" then DefaultPath(item, s.directory)
      else
        var file := Sanitize(name) + ".ts";
        assert '/' !in name ==> '/' !in file by {
          if '/' !in name {
            SanitizeKeepsSlashes(name);
          }
        }
        Join(s.directory, file)
  }

  /** In templated mode the file is named after the sanitised rendered template, with `.ts` appended. */
  lemma TemplatedName(item: Item, s: Settings)
    requires UsesTemplate(item, s)
    requires '/' !in RenderTemplate(s.fileTemplate, item)
    ensures Basename(ChosenPath(item, s)) == Sanitize(RenderTemplate(s.fileTemplate, item)) + ".ts"
  {
    var rendered := RenderTemplate(s.fileTemplate, item);
    var file := Sanitize(rendered) + ".ts";
    assert ChosenPath(item, s) == Join(s.directory, file);
    SanitizeKeepsSlashes(rendered);
    BasenamePlain(file);
  }

  /** Sanitising introduces no `/`. */
  lemma SanitizeKeepsSlashes(name: string)
    requires '/' !in name
    ensures '/' !in Sanitize(name) + ".ts"
  {
    var r := Sanitize(name);
    forall k | 0 <= k < |r| ensures r[k] != '/' {
      assert name[k] != '/';
    }
  }

  /** The generic playlist names that the correction replaces. */
  predicate IsPlaylistName(base: string)
  {
    base == "playlist.ts" || base == "playlist_eof.ts"
  }

  /** The name of the directory that holds the stream's playlist (`path.basename(path.dirname(url))`). */
  function ParentName(url: string): (r: string)
    ensures '/' !in r + ".ts"
  {
    var r := Basename(Dirname(url));
    assert forall c | c in r + ".ts" :: c in r || c in ".ts";
    r
  }

  /**
   * index.js:321-326: a path whose basename is a generic playlist name has
   * the first occurrence of that basename, anywhere in the path, replaced by
   * the parent directory's name of the stream address plus `.ts`.
   */
  function PlaylistRename(full: string, url: string): (r: string)
    ensures !IsPlaylistName(Basename(full)) ==> r == full
    ensures IsPlaylistName(Basename(full)) ==> |r| == |full| - |Basename(full)| + |ParentName(url)| + 3
  {
    var base := Basename(full);
    RenameBasenameLength(full, ParentName(url) + ".ts");
    if IsPlaylistName(base) then ReplaceFirst(full, base, ParentName(url) + ".ts") else full
  }

  /** A path always holds its basename, so replacing it changes the length by the difference of the two names. */
  lemma RenameBasenameLength(full: string, name: string)
    ensures |ReplaceFirst(full, Basename(full), name)| == |full| - |Basename(full)| + |name|
  {
    var base := Basename(full);
    BasenameSplit(full);
    assert OccursAt(full, base, |full| - |base|);
    IndexOfLeftmost(full, base);
    ReplaceFirstAt(full, base, name);
  }

  /** Renaming a trailing name that does not occur earlier touches only that name. */
  lemma RenameTail(full: string, prefix: string, base: string, name: string)
    requires full == prefix + base && '/' !in name
    requires prefix == [] || prefix[|prefix| - 1] == '/'
    requires forall j | 0 <= j < |prefix| :: !OccursAt(full, base, j)
    ensures ReplaceFirst(full, base, name) == prefix + name
    ensures Basename(prefix + name) == name
  {
    assert full[|prefix|..|prefix| + |base|] == base;
    ReplaceFirstLeftmost(full, base, name, |prefix|);
    assert full[..|prefix|] == prefix && full[|prefix| + |base|..] == [];
    assert ReplaceFirst(full, base, name) == prefix + name + [];
    assert prefix + name + [] == prefix + name;
    BasenameUnique(prefix, []);
    BasenameAppend(prefix, name);
    assert Basename(prefix) + name == name;
  }

  /**
   * When the basename does not occur earlier in the path, the correction
   * renames exactly the basename and nothing else; a path whose basename is
   * not a playlist name is kept.
   */
  lemma PlaylistRenameBasename(full: string, url: string)
    requires forall j | 0 <= j < |full| - |Basename(full)| :: !OccursAt(full, Basename(full), j)
    ensures IsPlaylistName(Basename(full)) ==>
              PlaylistRename(full, url) == full[..|full| - |Basename(full)|] + (ParentName(url) + ".ts") &&
              Basename(PlaylistRename(full, url)) == ParentName(url) + ".ts"
    ensures !IsPlaylistName(Basename(full)) ==> PlaylistRename(full, url) == full
  {
    var base := Basename(full);
    var prefix := full[..|full| - |base|];
    var parent := ParentName(url);
    var name := parent + ".ts";
    BasenameSplit(full);
    if IsPlaylistName(base) {
      RenameTail(full, prefix, base, name);
      assert PlaylistRename(full, url) == ReplaceFirst(full, base, name);
    }
  }

  /** `getLocalFilename` without its directory-creation side effect. */
  function LocalFilename(item: Item, s: Settings): (r: string)
    ensures s.directory != [] && s.directory[|s.directory| - 1] != '/' &&
            (!UsesTemplate(item, s) || '/' !in RenderTemplate(s.fileTemplate, item)) &&
            !IsPlaylistName(Basename(ChosenPath(item, s))) ==>
              Dirname(r) == s.directory
    ensures IsPlaylistName(Basename(ChosenPath(item, s))) ==>
              |r| == |ChosenPath(item, s)| - |Basename(ChosenPath(item, s))| + |ParentName(item.video.url)| + 3
  {
    PlaylistRename(ChosenPath(item, s), item.video.url)
  }

  /** The file an engine writes for local path `local`: ffmpeg gets its first `.ts` turned into `.mp4` (index.js:249). */
  function EngineOutput(local: string, engine: Engine): (r: string)
    ensures engine == Internal ==> r == local
    ensures engine == Ffmpeg && |local| >= 3 && local[|local| - 3..] == ".ts" && '.' !in local[..|local| - 3] ==>
              r == local[..|local| - 3] + ".mp4"
  {
    assert engine == Ffmpeg && |local| >= 3 && local[|local| - 3..] == ".ts" && '.' !in local[..|local| - 3] ==>
             ReplaceFirst(local, ".ts", ".mp4") == local[..|local| - 3] + ".mp4" by {
      if engine == Ffmpeg && |local| >= 3 && local[|local| - 3..] == ".ts" && '.' !in local[..|local| - 3] {
        var stem := local[..|local| - 3];
        assert local == stem + ".ts";
        ReplaceFirstPlainPrefix(stem, ".ts", ".ts", ".mp4");
      }
    }
    if engine == Ffmpeg then ReplaceFirst(local, ".ts", ".mp4") else local
  }

  /** The file the engine writes for `item`. */
  function TargetPath(item: Item, s: Settings): string
  {
    EngineOutput(LocalFilename(item, s), s.engine)
  }

  /** When the only `.ts` is the extension, ffmpeg writes the same path with `.mp4` instead. */
  lemma EngineOutputExtension(stem: string, engine: Engine)
    requires forall j | 0 <= j < |stem| :: !OccursAt(stem + ".ts", ".ts", j)
    ensures EngineOutput(stem + ".ts", engine) == if engine == Ffmpeg then stem + ".mp4" else stem + ".ts"
  {
    if engine == Ffmpeg {
      var p := stem + ".ts";
      assert p[|stem|..|stem| + 3] == ".ts";
      ReplaceFirstLeftmost(p, ".ts", ".mp4", |stem|);
      assert p[..|stem|] == stem && p[|stem| + 3..] == [];
    }
  }
}

/**
 * The naming rules worked out for the shapes the downloader meets: a
 * `user_video` template, a template without placeholders, a stream whose
 * playlist file has a generic name, and a directory that already holds
 * that generic name.
 */
module FilenameCases {
  import opened Items
  import opened Paths
  import opened Filenames

  /** The empty string is left as it is by the global replace. */
  lemma ReplaceAllEmpty(pat: string, rep: string)
    requires pat != []
    ensures ReplaceAll([], pat, rep) == []
  {
  }

  /**
   * `%%username%%<sep>%%videoid%%` renders to the user name, the separator
   * and the video id when none of them holds a `%` (for Bob's video 42 and
   * the separator `_`: `Bob_42`).
   */
  lemma RenderUserAndVideo(item: Item, sep: string)
    requires '%' !in item.user.name && '%' !in sep && '%' !in item.video.id
    ensures RenderTemplate("%%username%%" + sep + "%%videoid%%", item) ==
            item.user.name + sep + item.video.id
  {
    var u, v := "%%username%%", "%%videoid%%";
    var name, id := item.user.name, item.video.id;
    assert u + sep + v == u + (sep + v);
    ReplaceAllAtStart(u, sep + v, name);
    ReplaceAllPlainPrefix(sep, v, u, name);
    ReplaceAllAbsentChar(v, u, name, 2);
    var n1 := name + sep + v;
    assert name + (sep + v) == n1;
    ReplaceAllPlainPrefix(name + sep, v, "%%userid%%", item.user.id);
    ReplaceAllAbsentChar(v, "%%userid%%", item.user.id, 2);
    ReplaceAllPlainPrefix(name + sep, v, v, id);
    assert v == v + [];
    ReplaceAllAtStart(v, [], id);
    ReplaceAllEmpty(v, id);
    var n3 := name + sep + id;
    assert n3 == (name + sep) + (id + []);
    ReplaceAllAbsentChar(n3, "%%videotitle%%", TitleOrDefault(item.video), 0);
    ReplaceAllAbsentChar(n3, "%%videotime%%", item.video.time, 0);
  }

  /**
   * In templated mode, a rendered name without `/` whose sanitised form is
   * not a playlist name is saved in the download directory as that
   * sanitised form with `.ts` appended.
   */
  lemma TemplatedLocal(item: Item, s: Settings)
    requires UsesTemplate(item, s)
    requires '/' !in RenderTemplate(s.fileTemplate, item)
    requires !IsPlaylistName(Sanitize(RenderTemplate(s.fileTemplate, item)) + ".ts")
    ensures LocalFilename(item, s) == Join(s.directory, Sanitize(RenderTemplate(s.fileTemplate, item)) + ".ts")
  {
    TemplatedName(item, s);
  }

  /**
   * The template `%%username%%_%%videoid%%` saves Bob's video 42 as
   * `Bob_42.ts`: for any name and id without `%`, `/` or a character the
   * sanitiser rewrites, the file is `<name>_<id>.ts`.
   */
  lemma UserVideoFile(item: Item, s: Settings)
    requires s.fileMode != 0 && s.fileTemplate == "%%username%%" + "_" + "%%videoid%%"
    requires var n := item.user.name + "_" + item.video.id;
             '%' !in n && '/' !in n && forall i | 0 <= i < |n| :: !Illegal(n[i])
    requires !IsPlaylistName(item.user.name + "_" + item.video.id + ".ts")
    ensures LocalFilename(item, s) == Join(s.directory, item.user.name + "_" + item.video.id + ".ts")
  {
    var n := item.user.name + "_" + item.video.id;
    assert '%' !in item.user.name && '%' !in item.video.id by {
      forall c | c in item.user.name ensures c != '%' { assert c in n; }
      forall c | c in item.video.id ensures c != '%' { assert c in n; }
    }
    RenderUserAndVideo(item, "_");
    SanitizeLegal(n);
    TemplatedLocal(item, s);
  }

  /** A template without a placeholder is used as the name itself, sanitised: `a:b?c` gives `a_b_c.ts`. */
  lemma PlainTemplateFile(item: Item, s: Settings)
    requires s.fileMode != 0 && s.fileTemplate != [] && '%' !in s.fileTemplate && '/' !in s.fileTemplate
    requires !IsPlaylistName(Sanitize(s.fileTemplate) + ".ts")
    ensures LocalFilename(item, s) == Join(s.directory, Sanitize(s.fileTemplate) + ".ts")
  {
    TemplatedLocal(item, s);
  }

  /** The sanitiser's own example: `a:b?c` becomes `a_b_c`. */
  lemma SanitizeExample()
    ensures Sanitize("a:b?c") == "a_b_c"
  {
  }

  /** A path ending in `/` has an empty basename. */
  lemma DirectoryBasename(p: string)
    requires p != [] && p[|p| - 1] == '/'
    ensures Basename(p) == []
  {
    BasenameUnique(p, []);
  }

  /** The basename of `<dir>/<file>` is `file`. */
  lemma JoinedBasename(dir: string, file: string)
    requires '/' !in file
    ensures Basename(dir + "/" + file) == file
  {
    DirectoryBasename(dir + "/");
    BasenameAppend(dir + "/", file);
  }

  /** The dirname of `<dir>/<file>` is `dir` when `dir` is not empty. */
  lemma JoinedDirname(dir: string, file: string)
    requires '/' !in file && dir != []
    ensures Dirname(dir + "/" + file) == dir
  {
    JoinedBasename(dir, file);
    var url := dir + "/" + file;
    var d := Dirname(url);
    assert url == d + "/" + file;
    assert d == url[..|d|] && dir == url[..|dir|];
  }

  /** The parent directory name of `<pre>/<show>/<file>` is `show`. */
  lemma ParentOfStream(pre: string, show: string, file: string)
    requires '/' !in show && '/' !in file
    ensures ParentName(pre + "/" + show + "/" + file) == show
  {
    JoinedDirname(pre + "/" + show, file);
    JoinedBasename(pre, show);
  }

  /** Replacing the first `m` in `<stem><m>`, for a stem without the first character of `m`, replaces the suffix. */
  lemma ReplaceSuffix(stem: string, m: string, t: string)
    requires m != [] && m[0] !in stem
    ensures ReplaceFirst(stem + m, m, t) == stem + t
  {
    ReplaceFirstPlainPrefix(stem, m, m, t);
    assert OccursAt(m, m, 0);
    ReplaceFirstLeftmost(m, m, t, 0);
    assert m[..0] + t + m[|m|..] == t;
  }

  /** The default name of a stream `<dir>/<stem>m3u8`, for a stem without `m` or `/`, is `<stem>ts`. */
  lemma DefaultNameOfStream(dir: string, stem: string)
    requires 'm' !in stem && '/' !in stem
    ensures DefaultName(dir + "/" + (stem + "m3u8")) == stem + "ts"
  {
    var file := stem + "m3u8";
    SlashFreeConcat(stem, "m3u8");
    JoinedBasename(dir, file);
    ReplaceSuffix(stem, "m3u8", "ts");
  }

  /**
   * In mode 0 a stream `<pre>/<show>/playlist.m3u8` (or
   * `playlist_eof.m3u8`) is saved as `<show>.ts` in the download directory
   * (`.../showXYZ/playlist.m3u8` gives `showXYZ.ts`), as long as the
   * directory does not already hold the generic name.
   */
  lemma PlaylistStreamFile(item: Item, s: Settings, pre: string, show: string, stem: string)
    requires s.fileMode == 0 && '/' !in show
    requires 'm' !in stem && '/' !in stem && IsPlaylistName(stem + "ts")
    requires item.video.url == pre + "/" + show + "/" + (stem + "m3u8")
    requires var full := Join(s.directory, stem + "ts");
             forall j | 0 <= j < |full| - |stem + "ts"| :: !OccursAt(full, stem + "ts", j)
    ensures LocalFilename(item, s) == Join(s.directory, show + ".ts")
  {
    var file := stem + "ts";
    var full := Join(s.directory, file);
    StreamChosenPath(item, s, pre, show, stem);
    PlaylistRenameBasename(full, item.video.url);
    JoinSameDirectory(s.directory, file, show + ".ts");
  }

  /** In mode 0 a stream `<pre>/<show>/<stem>m3u8` is first given the path `<directory>/<stem>ts`. */
  lemma StreamChosenPath(item: Item, s: Settings, pre: string, show: string, stem: string)
    requires s.fileMode == 0 && '/' !in show
    requires 'm' !in stem && '/' !in stem
    requires item.video.url == pre + "/" + show + "/" + (stem + "m3u8")
    ensures ChosenPath(item, s) == Join(s.directory, stem + "ts")
    ensures Basename(Join(s.directory, stem + "ts")) == stem + "ts"
    ensures ParentName(item.video.url) == show
  {
    var file := stem + "ts";
    DefaultNameOfStream(pre + "/" + show, stem);
    ParentOfStream(pre, show, stem + "m3u8");
    assert ChosenPath(item, s) == DefaultPath(item, s.directory);
    assert DefaultPath(item, s.directory) == Join(s.directory, DefaultName(item.video.url));
    SlashFreeConcat(stem, "ts");
    BasenamePlain(file);
  }

  /** Two texts without `/` make one without `/`. */
  lemma SlashFreeConcat(a: string, b: string)
    requires '/' !in a && '/' !in b
    ensures '/' !in a + b
  {
    forall c | c in a + b ensures c != '/' {
      assert c in a || c in b;
    }
  }

  /** Joining a directory with two names gives the same directory part. */
  lemma JoinSameDirectory(dir: string, a: string, b: string)
    ensures var r := Join(dir, a); r[..|r| - |a|] + b == Join(dir, b)
  {
    var r := Join(dir, a);
    assert r == DirPrefix(dir) + a;
    assert r[..|r| - |a|] == DirPrefix(dir);
  }

  /** A name without `/` behind a text ending in `/` is that text's basename. */
  lemma BasenameBehindSlash(x: string, base: string)
    requires x != [] && x[|x| - 1] == '/' && '/' !in base
    ensures Basename(x + base) == base
  {
    DirectoryBasename(x);
    BasenameAppend(x, base);
  }

  /** An occurrence of a non-empty basename inside the directory part ends before that part's final `/`. */
  lemma EarlierOccurrenceBeforeSlash(full: string, base: string, i: int)
    requires base == Basename(full) && base != []
    requires 0 <= i && i + |base| <= |full| - |base|
    requires OccursAt(full, base, i)
    ensures i + |base| < |full| - |base|
    ensures full[|full| - |base| - 1] == '/'
  {
    var n := |full| - |base|;
    assert full[n - 1] == '/';
  }

  /** Splicing `name` over an occurrence that ends before the directory's final `/` keeps the basename. */
  lemma SpliceKeepsBasename(full: string, base: string, name: string, i: int)
    requires base == Basename(full) && base != []
    requires 0 <= i && i + |base| < |full| - |base|
    requires full[|full| - |base| - 1] == '/'
    ensures Basename(full[..i] + name + full[i + |base|..]) == base
  {
    var n := |full| - |base|;
    var x := full[..i] + name + full[i + |base|..n];
    assert full[i + |base|..] == full[i + |base|..n] + base;
    assert full[..i] + name + full[i + |base|..] == x + base;
    assert x[|x| - 1] == full[n - 1];
    BasenameBehindSlash(x, base);
  }

  /** Replacing the basename where it first occurs inside the directory part keeps the basename. */
  lemma ReplaceEarlierOccurrence(full: string, name: string, i: int)
    requires Basename(full) != []
    requires 0 <= i && i + |Basename(full)| <= |full| - |Basename(full)|
    requires OccursAt(full, Basename(full), i)
    requires forall j | 0 <= j < i :: !OccursAt(full, Basename(full), j)
    ensures ReplaceFirst(full, Basename(full), name) ==
            full[..i] + name + full[i + |Basename(full)|..]
    ensures Basename(ReplaceFirst(full, Basename(full), name)) == Basename(full)
  {
    var base := Basename(full);
    ReplaceFirstLeftmost(full, base, name, i);
    EarlierOccurrenceBeforeSlash(full, base, i);
    SpliceKeepsBasename(full, base, name, i);
  }

  /**
   * The correction replaces the first occurrence of the generic name in
   * the whole path: when it first occurs in the directory part, the
   * directory is renamed and the file keeps its generic name.
   */
  lemma RenameHitsDirectory(full: string, url: string, i: int)
    requires IsPlaylistName(Basename(full))
    requires 0 <= i && i + |Basename(full)| <= |full| - |Basename(full)|
    requires OccursAt(full, Basename(full), i)
    requires forall j | 0 <= j < i :: !OccursAt(full, Basename(full), j)
    ensures PlaylistRename(full, url) ==
            full[..i] + (ParentName(url) + ".ts") + full[i + |Basename(full)|..]
    ensures Basename(PlaylistRename(full, url)) == Basename(full)
  {
    ReplaceEarlierOccurrence(full, ParentName(url) + ".ts", i);
  }

  /**
   * ffmpeg's output path swaps the first `.ts` of the whole path: when the
   * path holds `.ts` before its extension, that earlier occurrence becomes
   * `.mp4` and the path still ends in `.ts`.
   */
  lemma FfmpegHitsEarlierTs(stem: string, i: int)
    requires OccursAt(stem, ".ts", i)
    requires forall j | 0 <= j < i :: !OccursAt(stem + ".ts", ".ts", j)
    ensures EngineOutput(stem + ".ts", Ffmpeg) == stem[..i] + ".mp4" + stem[i + 3..] + ".ts"
  {
    var p := stem + ".ts";
    assert p[i..i + 3] == stem[i..i + 3];
    ReplaceFirstLeftmost(p, ".ts", ".mp4", i);
    assert p[..i] == stem[..i];
    assert p[i + 3..] == stem[i + 3..] + ".ts";
  }
}
