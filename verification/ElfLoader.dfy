/**
 The loading calls themselves (elf_load, elf_process_loaded, elf_process_header, elf_process_phdr_pt_dynamic
 and elf_process_dynamic_tag_needed), with the registry, the descriptor table and the position of strtok as
 state. Buffers of COS32_MAX_PATH characters hold every name and path.
 */
module ElfLoader {
  import opened Kernel
  import opened Strings
  import opened Strtok
  import opened ElfLoad
  import opened FileTable

  class Loader {
    const files: Files
    const table: Descriptors
    const tok: Tokenizer
    var registry: seq<string>

    constructor (files: Files, table: Descriptors, tok: Tokenizer)
      ensures this.files == files && this.table == table && this.tok == tok && registry == []
    {
      this.files, this.table, this.tok, registry := files, table, tok, [];
    }

    /** library_get: the list is searched from its head. */
    method Registered(name: string) returns (found: bool)
      ensures found <==> name in registry
    {
      found := false;
      var i := 0;
      while i < |registry|
        invariant 0 <= i <= |registry|
        invariant name !in registry[..i]
      {
        if registry[i] == name {
          return true;
        }
        i := i + 1;
      }
    }

    /** basename into a buffer on the stack, read back as a C string. */
    method NameOf(path: string) returns (name: string)
      requires |path| < MAX_PATH && NUL !in path && Pieces(path, "/") != [] && tok.buf == null
      modifies tok
      ensures tok.buf == null && name == BaseName(path)
    {
      var filename := new char[|path| + 1](i requires 0 <= i => if i < |path| then path[i] else NUL);
      var out := new char[MAX_PATH];
      TextIs(filename[..], 0, |path|);
      assert filename[..][0..|path|] == path;
      Basename(tok, filename, out, MAX_PATH);
      name := ReadString(out);
    }

    /** fopen: 0 when the file is not there or no descriptor is free. */
    method Open(path: string) returns (fd: nat)
      requires table.Valid()
      modifies table.taken
      ensures fd == 0 <==> path !in files || old(table.Free()) == 0
      ensures table.Free() == old(table.Free()) - if fd == 0 then 0 else 1
    {
      if path !in files {
        return 0;
      }
      var res := table.New();
      fd := if res < 0 then 0 else res;
    }

    /**
     elf_load. It ends whatever the files need, since each file takes a descriptor for good. paths holds what can
     be reached from path.
     */
    method ElfLoad(path: string, ghost paths: set<string>) returns (res: int)
      requires table.Valid() && NamedIn(files, paths) && tok.buf == null && path in paths
      modifies this`registry, table.taken, tok
      ensures tok.buf == null
      ensures Load(files, old(table.Free()), path, old(registry)) == Loaded(res, registry, table.Free())
      decreases table.Free(), 0
    {
      hide BaseName, Pieces, LoadNeeded;
      var fd := Open(path);
      res := 0;
      if fd > 0 {
        res := ProcessLoaded(path, paths);
      }
      var closed := table.Close(fd);
    }

    /** elf_process_loaded, and the reading of the file before it. */
    method ProcessLoaded(path: string, ghost paths: set<string>) returns (res: int)
      requires table.Valid() && NamedIn(files, paths) && tok.buf == null && path in paths && path in files
      modifies this`registry, table.taken, tok
      ensures tok.buf == null
      ensures var image := files[path];
              var r := LoadNeeded(files, old(table.Free()), image.needed, Registering(image, path, old(registry)));
              if image.checked < 0
              then res == image.checked && registry == old(registry) && table.Free() == old(table.Free())
              else Loaded(res, registry, table.Free()) == if r.res < 0 then r else r.(res := image.later)
      decreases table.Free(), 2
    {
      hide BaseName, Pieces, LoadNeeded;
      var image := files[path];
      if image.checked < 0 {
        return image.checked;
      }
      if image.kind == Library {
        OpenableHasName(path);
        var name := NameOf(path);
        registry := registry + [name];
      }
      res := ProcessDynamic(image.needed, paths);
      if res >= 0 {
        res := image.later;
      }
    }

    /** elf_process_phdr_pt_dynamic, with elf_process_dynamic_tag_needed for each tag. */
    method ProcessDynamic(needed: seq<string>, ghost paths: set<string>) returns (res: int)
      requires table.Valid() && NamedIn(files, paths) && tok.buf == null && NeedsIn(needed, paths)
      modifies this`registry, table.taken, tok
      ensures tok.buf == null
      ensures LoadNeeded(files, old(table.Free()), needed, old(registry)) == Loaded(res, registry, table.Free())
      decreases table.Free(), 1
    {
      hide BaseName, Pieces, Load;
      res := 0;
      ghost var start := LoadNeeded(files, table.Free(), needed, registry);
      for i := 0 to |needed|
        invariant tok.buf == null && table.Free() <= old(table.Free())
        invariant start == LoadNeeded(files, table.Free(), needed[i..], registry)
      {
        assert needed[i..][0] == needed[i] && needed[i..][1..] == needed[i + 1..];
        assert needed[i] in needed && Nameable(needed[i]);
        var name := NameOf(needed[i]);
        var found := Registered(name);
        if !found {
          res := ElfLoad(LibraryPath(name), paths);
          if res < 0 {
            return;
          }
        }
      }
      res := 0;
    }
  }

  method ReadString(buffer: array<char>) returns (s: string)
    requires Terminated(buffer[..], 0)
    ensures s == Text(buffer[..], 0)
  {
    hide Text, End;
    ghost var text := Text(buffer[..], 0);
    var i := 0;
    s := [];
    AtEnd(buffer[..], 0, text, 0);
    while buffer[i] != NUL
      invariant i <= |text| && s == text[..i] && (buffer[i] == NUL <==> i == |text|)
      decreases |text| - i
    {
      AtEnd(buffer[..], 0, text, i);
      s := s + [buffer[i]];
      i := i + 1;
      AtEnd(buffer[..], 0, text, i);
    }
  }
}
