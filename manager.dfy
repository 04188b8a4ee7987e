/**
  * The font registry engine, the `FontManager` class: the two font
  * directories, and the state it reads and changes, which belongs to the
  * operating system. That state is the machine hive and the user hive of the
  * Fonts registry key, the set of existing files, and a count of the
  * font-change broadcasts sent.
  *
  * Operating-system failures are inputs of the operations: an
  * `Option<Fault>` per fallible step, `None` when the step succeeds.
  */
module FontRegistry {
  import opened Sequences
  import opened Paths
  import opened Catalog

  /** The exception an operating-system call raised. */
  datatype Fault =
    | PermissionFault             // PermissionError
    | MissingFault(detail: string) // FileNotFoundError, with its str()
    | OtherFault(detail: string)   // any other exception, with its str()

  const SystemTypeName := "系统字体"
  const UserTypeName := "用户字体"

  const FileMissingMessage := "字体文件不存在"
  const UnsupportedMessage := "不支持的字体格式，仅支持 .ttf, .otf, .ttc"
  const SystemInstallDeniedMessage := "安装系统字体需要管理员权限，请以管理员身份运行程序"
  const SystemUninstallDeniedMessage := "卸载系统字体需要管理员权限，请以管理员身份运行程序"
  const PermissionDeniedMessage := "权限不足"
  const RegistryEntryMissingMessage := "注册表项不存在"

  function AlreadyInstalledMessage(typeName: string): string {
    "字体已存在于" + typeName + "中"
  }

  function InstalledMessage(typeName: string): string {
    "字体已成功安装为" + typeName
  }

  function UninstalledMessage(fontType: string): string {
    fontType + "卸载成功"
  }

  /** The lower-cased extension install_font checks. */
  function InstallExt(fontPath: string): string {
    Lower(SplitExt(fontPath).1)
  }

  /** The extension check does not skip a drive: a drive-relative "C:.ttf" has extension ".ttf". */
  lemma DriveRelativeSourceExt()
    ensures InstallExt("C:.ttf") == ".ttf"
  {
    var p := "C:.ttf";
    assert p[2] == '.' && p[3] != '.' && p[4] != '.' && p[5] != '.';
    assert !IsSep(p[0]) && !IsSep(p[1]) && !IsSep(p[2]) && !IsSep(p[3]) && !IsSep(p[4]) && !IsSep(p[5]);
    assert LastSep(p) == -1 && LastDot(p) == 2;
    assert p[0] != '.' && p[..2] == "C:" && p[2..] == ".ttf";
    assert SplitExt(p) == ("C:", ".ttf");
  }

  function TypeName(scope: Scope): string {
    if scope == System then SystemTypeName else UserTypeName
  }

  function OtherScope(scope: Scope): Scope {
    if scope == System then User else System
  }

  /** install_font: only "system" selects the machine scope; any other value means the user scope. */
  function InstallScope(installType: string): (r: Scope)
    ensures r == System <==> installType == "system"
  {
    if installType == "system" then System else User
  }

  /** uninstall_font: only "系统字体" selects the machine scope; any other value means the user scope. */
  function UninstallScope(fontType: string): (r: Scope)
    ensures r == System <==> fontType == SystemTypeName
  {
    if fontType == SystemTypeName then System else User
  }

  /** The type name an install reports selects, when handed back to uninstall, the scope installed into. */
  lemma TypeNameSelectsScope(installType: string)
    ensures UninstallScope(TypeName(InstallScope(installType))) == InstallScope(installType)
  {
    assert SystemTypeName != UserTypeName;
  }

  predicate SupportedExt(ext: string) {
    ext == ".ttf" || ext == ".otf" || ext == ".ttc"
  }

  /** The registry value name install_font writes: the stem plus an annotation for .ttf and .otf. */
  function RegistryName(fileName: string, ext: string): (r: string)
    ensures StartsWith(r, SplitExt(fileName).0)
    ensures |r| == |SplitExt(fileName).0| + if ext == ".ttf" || ext == ".otf" then 11 else 0
  {
    var stem := SplitExt(fileName).0;
    if ext == ".ttf" then stem + " (TrueType)"
    else if ext == ".otf" then stem + " (OpenType)"
    else stem
  }

  /** The message install_font returns for the exception raised in its `try` block. */
  function InstallErrorMessage(f: Fault, installType: string): (r: string)
    ensures f.PermissionFault? ==> (r == SystemInstallDeniedMessage <==> installType == "system")
    ensures f.PermissionFault? && installType != "system" ==> r == PermissionDeniedMessage
    ensures !f.PermissionFault? ==> r == "安装失败: " + f.detail
  {
    match f
    case PermissionFault => if installType == "system" then SystemInstallDeniedMessage else PermissionDeniedMessage
    case MissingFault(d) => "安装失败: " + d
    case OtherFault(d) => "安装失败: " + d
  }

  /** An install failure is never reported with the success text. */
  lemma InstallErrorNeverSuccess(f: Fault, installType: string, typeName: string)
    ensures InstallErrorMessage(f, installType) != InstalledMessage(typeName)
  {
    var r := InstallErrorMessage(f, installType);
    assert InstalledMessage(typeName)[0] == '字';
    if !f.PermissionFault? {
      assert r[0] == '安';
    }
  }

  /** The message uninstall_font returns for the exception raised in its `try` block. */
  function UninstallErrorMessage(f: Fault, fontType: string): (r: string)
    ensures f.PermissionFault? ==> (r == SystemUninstallDeniedMessage <==> fontType == SystemTypeName)
    ensures f.PermissionFault? && fontType != SystemTypeName ==> r == PermissionDeniedMessage
    ensures f.MissingFault? ==> r == RegistryEntryMissingMessage
    ensures f.OtherFault? ==> r == "卸载失败: " + f.detail
  {
    match f
    case PermissionFault => if fontType == SystemTypeName then SystemUninstallDeniedMessage else PermissionDeniedMessage
    case MissingFault(_) => RegistryEntryMissingMessage
    case OtherFault(d) => "卸载失败: " + d
  }

  /** For the two type names the window passes, an uninstall failure is never reported with the success text. */
  lemma UninstallErrorNeverSuccess(f: Fault, fontType: string)
    requires fontType == SystemTypeName || fontType == UserTypeName
    ensures UninstallErrorMessage(f, fontType) != UninstalledMessage(fontType)
  {
    var r := UninstallErrorMessage(f, fontType);
    assert UninstalledMessage(fontType)[0] == fontType[0];
    if f.OtherFault? {
      assert r[0] == '卸';
    } else if f.MissingFault? {
      assert r[0] == '注';
    } else if fontType == SystemTypeName {
      assert r[0] == '卸';
    } else {
      assert r[0] == '权';
    }
  }

  // ---------------------------------------------------------------------
  // Registry values
  // ---------------------------------------------------------------------

  /** The registry matches value names without regard to case. */
  predicate SameName(a: string, b: string) {
    Lower(a) == Lower(b)
  }

  /** A registry key never holds two values whose names differ only in case. */
  predicate DistinctNames(h: Hive) {
    forall i, j :: 0 <= i < j < |h| ==> !SameName(h[i].0, h[j].0)
  }

  predicate HasValue(h: Hive, name: string) {
    exists e :: e in h && SameName(e.0, name)
  }

  /** `winreg.EnumValue(key, i)`: the i-th value, or the error raised once `readable` values were delivered. */
  function EnumValue(h: Hive, readable: nat, i: nat): (r: Option<Entry>)
    ensures r.Some? <==> i < |Readable(h, readable)|
    ensures r.Some? ==> r.value == Readable(h, readable)[i]
  {
    if i < readable && i < |h| then Some(h[i]) else None
  }

  /** The spelling a write of `name` ends up under: that of the value already matching it, if any. */
  function StoredName(h: Hive, name: string): (r: string)
    ensures SameName(r, name)
    ensures !HasValue(h, name) ==> r == name
  {
    if h == [] then name
    else if SameName(h[0].0, name) then h[0].0
    else
      assert forall e :: e in h[1..] ==> e in h;
      StoredName(h[1..], name)
  }

  /**
    * `winreg.SetValueEx`: overwrites the data of the value matching `name`
    * in place, keeping that value's spelling, or adds the value at the end.
    */
  function SetValue(h: Hive, name: string, data: string): (r: Hive)
    ensures (StoredName(h, name), data) in r
    ensures forall e: Entry :: !SameName(e.0, name) ==> (e in r <==> e in h)
    ensures forall e: Entry :: e in r ==> e in h || e == (StoredName(h, name), data)
  {
    if h == [] then [(name, data)]
    else if SameName(h[0].0, name) then [(h[0].0, data)] + h[1..]
    else [h[0]] + SetValue(h[1..], name, data)
  }

  /** Putting a value with a new name in front keeps names distinct. */
  lemma ConsDistinct(x: Entry, h: Hive)
    requires DistinctNames(h)
    requires forall e :: e in h ==> !SameName(e.0, x.0)
    ensures DistinctNames([x] + h)
  {
    forall i, j | 0 <= i < j < |[x] + h| ensures !SameName(([x] + h)[i].0, ([x] + h)[j].0) {
      if i == 0 {
        assert ([x] + h)[j] == h[j - 1];
        assert h[j - 1] in h;
      } else {
        assert ([x] + h)[i] == h[i - 1] && ([x] + h)[j] == h[j - 1];
      }
    }
  }

  /** The tail of a key with distinct names has distinct names, none of them the head's. */
  lemma DistinctTail(h: Hive)
    requires h != [] && DistinctNames(h)
    ensures DistinctNames(h[1..])
    ensures forall e :: e in h[1..] ==> !SameName(e.0, h[0].0)
  {
    forall i, j | 0 <= i < j < |h[1..]| ensures !SameName(h[1..][i].0, h[1..][j].0) {
      assert h[1..][i] == h[i + 1] && h[1..][j] == h[j + 1];
    }
    forall e | e in h[1..] ensures !SameName(e.0, h[0].0) {
      var k :| 0 <= k < |h[1..]| && h[1..][k] == e;
      assert h[k + 1] == e;
    }
  }

  /** Writing a value keeps names distinct, and leaves one value matching the name: the one written. */
  lemma {:induction false} SetValueDistinct(h: Hive, name: string, data: string)
    requires DistinctNames(h)
    ensures DistinctNames(SetValue(h, name, data))
    ensures forall e: Entry :: e in SetValue(h, name, data) && SameName(e.0, name) ==> e == (StoredName(h, name), data)
  {
    if h != [] {
      DistinctTail(h);
      if SameName(h[0].0, name) {
        ConsDistinct((h[0].0, data), h[1..]);
      } else {
        var t := SetValue(h[1..], name, data);
        SetValueDistinct(h[1..], name, data);
        forall e | e in t ensures !SameName(e.0, h[0].0) {
          if e != (StoredName(h[1..], name), data) {
            assert e in h[1..];
          }
        }
        ConsDistinct(h[0], t);
      }
    }
  }

  /** Writing one value keeps every value name already present. */
  lemma SetValueKeeps(h: Hive, name: string, data: string, n: string)
    requires HasValue(h, n)
    ensures HasValue(SetValue(h, name, data), n)
  {
    var e :| e in h && SameName(e.0, n);
    if !SameName(e.0, name) {
      assert e in SetValue(h, name, data);
    } else {
      assert (StoredName(h, name), data) in SetValue(h, name, data);
    }
  }

  /** `winreg.DeleteValue`: removes the value matching `name`, keeping the order of the others. */
  function DeleteValue(h: Hive, name: string): (r: Hive)
    ensures forall e: Entry :: e in r <==> e in h && !SameName(e.0, name)
    ensures IsSubseq(r, h)
  {
    if h == [] then []
    else if SameName(h[0].0, name) then
      var t := DeleteValue(h[1..], name);
      SubseqAppendFront(t, h[1..], h[0]);
      t
    else [h[0]] + DeleteValue(h[1..], name)
  }

  lemma SubseqAppendFront<T>(a: seq<T>, b: seq<T>, x: T)
    requires IsSubseq(a, b)
    ensures IsSubseq(a, [x] + b)
  {
    if a != [] {
      assert ([x] + b)[1..] == b;
    }
  }

  lemma {:induction false} DeleteValueDistinct(h: Hive, name: string)
    requires DistinctNames(h)
    ensures DistinctNames(DeleteValue(h, name))
  {
    if h != [] {
      DistinctTail(h);
      DeleteValueDistinct(h[1..], name);
      if !SameName(h[0].0, name) {
        ConsDistinct(h[0], DeleteValue(h[1..], name));
      }
    }
  }

  // ---------------------------------------------------------------------
  // The engine's operations on the operating-system state
  // ---------------------------------------------------------------------

  /** Everything the engine reads and changes, all of it owned by the operating system. */
  datatype Os = Os(machineHive: Hive, userHive: Hive, files: set<string>, notifications: nat)

  predicate ValidOs(os: Os) {
    DistinctNames(os.machineHive) && DistinctNames(os.userHive)
  }

  function HiveIn(os: Os, scope: Scope): Hive {
    if scope == System then os.machineHive else os.userHive
  }

  function WithHive(os: Os, scope: Scope, h: Hive): Os {
    if scope == System then os.(machineHive := h) else os.(userHive := h)
  }

  function ScopeDir(systemDir: string, userDir: string, scope: Scope): string {
    if scope == System then systemDir else userDir
  }

  /** Where install_font copies `fontPath` to. */
  function TargetPath(systemDir: string, userDir: string, fontPath: string, installType: string): string {
    Join(ScopeDir(systemDir, userDir, InstallScope(installType)), Basename(fontPath))
  }

  /** The `(success, message)` pair an engine call returns, and the state it leaves. */
  datatype Reply = Reply(ok: bool, message: string, os: Os)

  /** The `try` block of install_font: copy to `targetPath`, write the value, notify. */
  function CopyAndRegisterStep(os: Os, targetPath: string, fileName: string, regName: string, installType: string,
                               copyFault: Option<Fault>, writeFault: Option<Fault>): Reply
  {
    if copyFault.Some? then Reply(false, InstallErrorMessage(copyFault.value, installType), os)
    else
      var copied := os.(files := os.files + {Lower(targetPath)});
      if writeFault.Some? then Reply(false, InstallErrorMessage(writeFault.value, installType), copied)
      else
        var scope := InstallScope(installType);
        var written := WithHive(copied, scope, SetValue(HiveIn(os, scope), regName, fileName));
        Reply(true, InstalledMessage(TypeName(scope)), written.(notifications := os.notifications + 1))
  }

  /**
    * `install_font` on the state `os`. A failure leaves both hives and the
    * count of broadcasts as they were; only the scope's hive can change.
    */
  function InstallStep(systemDir: string, userDir: string, os: Os, fontPath: string, installType: string,
                       copyFault: Option<Fault>, writeFault: Option<Fault>): (r: Reply)
    ensures HiveIn(r.os, OtherScope(InstallScope(installType))) == HiveIn(os, OtherScope(InstallScope(installType)))
    ensures !r.ok ==> r.os.machineHive == os.machineHive && r.os.userHive == os.userHive
    ensures r.os.notifications == os.notifications + if r.ok then 1 else 0
    ensures os.files <= r.os.files
  {
    if !Exists(os.files, fontPath) then Reply(false, FileMissingMessage, os)
    else if !SupportedExt(InstallExt(fontPath)) then Reply(false, UnsupportedMessage, os)
    else
      var fileName := Basename(fontPath);
      var scope := InstallScope(installType);
      var target := Join(ScopeDir(systemDir, userDir, scope), fileName);
      if Exists(os.files, target) then Reply(false, AlreadyInstalledMessage(TypeName(scope)), os)
      else CopyAndRegisterStep(os, target, fileName, RegistryName(fileName, InstallExt(fontPath)), installType, copyFault, writeFault)
  }

  /**
    * `install_font`, case by case: three checks in order, each failing
    * without a change; then the copy, the write and the notification, where
    * a failed write leaves the copied file behind.
    */
  lemma InstallStepCases(systemDir: string, userDir: string, os: Os, fontPath: string, installType: string,
                         copyFault: Option<Fault>, writeFault: Option<Fault>, r: Reply)
    requires r == InstallStep(systemDir, userDir, os, fontPath, installType, copyFault, writeFault)
    ensures var ext := InstallExt(fontPath);
            var target := TargetPath(systemDir, userDir, fontPath, installType);
      && (!Exists(os.files, fontPath) ==> r == Reply(false, FileMissingMessage, os))
      && (Exists(os.files, fontPath) && !SupportedExt(ext) ==> r == Reply(false, UnsupportedMessage, os))
      && (Exists(os.files, fontPath) && SupportedExt(ext) && Exists(os.files, target) ==>
            r == Reply(false, AlreadyInstalledMessage(TypeName(InstallScope(installType))), os))
    ensures var ext := InstallExt(fontPath);
            var target := TargetPath(systemDir, userDir, fontPath, installType);
            var passed := Exists(os.files, fontPath) && SupportedExt(ext) && !Exists(os.files, target);
      && (passed && copyFault.Some? ==> r == Reply(false, InstallErrorMessage(copyFault.value, installType), os))
      && (passed && copyFault.None? && writeFault.Some? ==>
            r == Reply(false, InstallErrorMessage(writeFault.value, installType), os.(files := os.files + {Lower(target)})))
      && (r.ok <==> passed && copyFault.None? && writeFault.None?)
    ensures var scope := InstallScope(installType);
            var fileName := Basename(fontPath);
      r.ok ==>
        && r.message == InstalledMessage(TypeName(scope))
        && HiveIn(r.os, scope) == SetValue(HiveIn(os, scope), RegistryName(fileName, InstallExt(fontPath)), fileName)
        && r.os.files == os.files + {Lower(TargetPath(systemDir, userDir, fontPath, installType))}
  {
  }

  /** An install keeps the value names of each hive distinct. */
  lemma InstallStepValid(systemDir: string, userDir: string, os: Os, fontPath: string, installType: string,
                         copyFault: Option<Fault>, writeFault: Option<Fault>)
    requires ValidOs(os)
    ensures ValidOs(InstallStep(systemDir, userDir, os, fontPath, installType, copyFault, writeFault).os)
  {
    var scope := InstallScope(installType);
    var fileName := Basename(fontPath);
    var regName := RegistryName(fileName, InstallExt(fontPath));
    var target := TargetPath(systemDir, userDir, fontPath, installType);
    if Exists(os.files, fontPath) && SupportedExt(InstallExt(fontPath)) && !Exists(os.files, target) {
      assert InstallStep(systemDir, userDir, os, fontPath, installType, copyFault, writeFault)
        == CopyAndRegisterStep(os, target, fileName, regName, installType, copyFault, writeFault);
      SetValueDistinct(HiveIn(os, scope), regName, fileName);
    }
  }

  /**
    * `uninstall_font` on the state `os`. Only the scope's hive can change,
    * no file is added, and only a success is broadcast.
    */
  function UninstallStep(systemDir: string, userDir: string, os: Os, fontName: string, fontFile: string, fontType: string,
                         deleteFault: Option<Fault>, removeFault: Option<Fault>): (r: Reply)
    ensures HiveIn(r.os, OtherScope(UninstallScope(fontType))) == HiveIn(os, OtherScope(UninstallScope(fontType)))
    ensures r.os.notifications == os.notifications + if r.ok then 1 else 0
    ensures r.os.files <= os.files
  {
    var scope := UninstallScope(fontType);
    if deleteFault.Some? then Reply(false, UninstallErrorMessage(deleteFault.value, fontType), os)
    else if !HasValue(HiveIn(os, scope), fontName) then Reply(false, RegistryEntryMissingMessage, os)
    else
      var cleared := WithHive(os, scope, DeleteValue(HiveIn(os, scope), fontName));
      var fontPath := Join(ScopeDir(systemDir, userDir, scope), fontFile);
      if Exists(os.files, fontPath) && removeFault.Some? then
        Reply(false, UninstallErrorMessage(removeFault.value, fontType), cleared)
      else
        var removed := if Exists(os.files, fontPath) then cleared.(files := os.files - {Lower(fontPath)}) else cleared;
        Reply(true, UninstalledMessage(fontType), removed.(notifications := os.notifications + 1))
  }

  /**
    * `uninstall_font`, case by case: the value is deleted first, so a fault
    * or a missing value changes nothing; then the file is removed when it
    * exists, and a failed removal keeps the deletion.
    */
  lemma UninstallStepCases(systemDir: string, userDir: string, os: Os, fontName: string, fontFile: string, fontType: string,
                           deleteFault: Option<Fault>, removeFault: Option<Fault>, r: Reply)
    requires r == UninstallStep(systemDir, userDir, os, fontName, fontFile, fontType, deleteFault, removeFault)
    ensures var scope := UninstallScope(fontType);
      && (deleteFault.Some? ==> r == Reply(false, UninstallErrorMessage(deleteFault.value, fontType), os))
      && (deleteFault.None? && !HasValue(HiveIn(os, scope), fontName) ==> r == Reply(false, RegistryEntryMissingMessage, os))
    ensures var scope := UninstallScope(fontType);
            var path := Join(ScopeDir(systemDir, userDir, scope), fontFile);
            var deleted := deleteFault.None? && HasValue(HiveIn(os, scope), fontName);
      && (deleted ==> HiveIn(r.os, scope) == DeleteValue(HiveIn(os, scope), fontName))
      && (deleted && Exists(os.files, path) && removeFault.Some? ==>
            !r.ok && r.message == UninstallErrorMessage(removeFault.value, fontType) && r.os.files == os.files)
      && (r.ok <==> deleted && (!Exists(os.files, path) || removeFault.None?))
      && (r.ok ==> r.message == UninstalledMessage(fontType) && r.os.files == os.files - {Lower(path)})
  {
  }

  /** An uninstall keeps the value names of each hive distinct. */
  lemma UninstallStepValid(systemDir: string, userDir: string, os: Os, fontName: string, fontFile: string, fontType: string,
                           deleteFault: Option<Fault>, removeFault: Option<Fault>)
    requires ValidOs(os)
    ensures ValidOs(UninstallStep(systemDir, userDir, os, fontName, fontFile, fontType, deleteFault, removeFault).os)
  {
    var scope := UninstallScope(fontType);
    if deleteFault.None? && HasValue(HiveIn(os, scope), fontName) {
      DeleteValueDistinct(HiveIn(os, scope), fontName);
    }
  }

  // ---------------------------------------------------------------------
  // The engine
  // ---------------------------------------------------------------------

  class FontManager {
    /** `%WINDIR%\Fonts`. */
    const systemFontsDir: string
    /** `%LOCALAPPDATA%\Microsoft\Windows\Fonts`. */
    const userFontsDir: string

    /** HKEY_LOCAL_MACHINE\...\Fonts. */
    var machineHive: Hive
    /** HKEY_CURRENT_USER\...\Fonts. */
    var userHive: Hive
    /** Lower-cased paths of everything `os.path.exists` reports. */
    var files: set<string>
    /** WM_FONTCHANGE broadcasts sent so far. */
    var notifications: nat

    function State(): Os
      reads this
    {
      Os(machineHive, userHive, files, notifications)
    }

    predicate Valid()
      reads this
    {
      ValidOs(State())
    }

    function FontsDir(scope: Scope): string {
      ScopeDir(systemFontsDir, userFontsDir, scope)
    }

    /** Where install_font copies `fontPath` to. */
    function InstallTarget(fontPath: string, installType: string): string {
      TargetPath(systemFontsDir, userFontsDir, fontPath, installType)
    }

    function HiveOf(scope: Scope): Hive
      reads this
    {
      HiveIn(State(), scope)
    }

    /** `__init__`: both directories from the environment; the user directory is created if absent. */
    constructor (windir: string, localAppData: string, machine: Hive, user: Hive, existing: set<string>)
      requires DistinctNames(machine) && DistinctNames(user)
      ensures systemFontsDir == Join(windir, "Fonts")
      ensures userFontsDir == Join(Join(Join(localAppData, "Microsoft"), "Windows"), "Fonts")
      ensures machineHive == machine && userHive == user
      ensures files == existing + {Lower(userFontsDir)}
      ensures notifications == 0
      ensures Valid()
    {
      systemFontsDir := Join(windir, "Fonts");
      var dir := Join(Join(Join(localAppData, "Microsoft"), "Windows"), "Fonts");
      userFontsDir := dir;
      machineHive := machine;
      userHive := user;
      files := existing + {Lower(dir)};
      notifications := 0;
    }

    /** `_notify_font_change`: one broadcast, whose failure is never reported to the caller. */
    method NotifyFontChange()
      modifies this`notifications
      ensures notifications == old(notifications) + 1
    {
      notifications := notifications + 1;
    }

    /**
      * One `while True` loop of `get_installed_fonts`: enumerate values until
      * `EnumValue` fails, appending each new existing font to `fonts` and its
      * key to `added`.
      */
    static method ScanHive(h: Hive, readable: nat, dir: string, systemDir: string, files: set<string>,
                           fonts0: seq<FontRecord>, added0: set<Key>)
      returns (fonts: seq<FontRecord>, added: set<Key>)
      ensures ScanState(fonts, added)
        == Scan(ScanState(fonts0, added0), Candidates(Readable(h, readable), dir, systemDir), files)
    {
      fonts, added := fonts0, added0;
      ghost var view := Readable(h, readable);
      var i := 0;
      while true
        invariant 0 <= i <= |view|
        invariant ScanState(fonts, added)
          == Scan(ScanState(fonts0, added0), Candidates(view[..i], dir, systemDir), files)
        decreases |view| - i
      {
        var next := EnumValue(h, readable, i);
        if next.None? {
          break;
        }
        var (name, value) := next.value;
        ScanSnoc(ScanState(fonts0, added0), view, i, dir, systemDir, files);
        var fontPath := if !IsAbs(value) then Join(dir, value) else value;
        if Exists(files, fontPath) {
          var isSystem := StartsWith(Lower(fontPath), Lower(systemDir));
          var fontKey := (name, Lower(fontPath));
          if fontKey !in added {
            fonts := fonts + [FontRecord(name, value, fontPath, if isSystem then System else User)];
            added := added + {fontKey};
          }
        }
        i := i + 1;
      }
      assert view[..i] == view;
    }

    /**
      * `get_installed_fonts`: the machine hive, then the user hive, each read
      * until its first enumeration error, merged and sorted by name.
      */
    method GetInstalledFonts(machineReadable: nat, userReadable: nat) returns (fonts: seq<FontRecord>)
      ensures fonts == FontCatalog(Readable(machineHive, machineReadable), Readable(userHive, userReadable),
                                   files, systemFontsDir, userFontsDir)
    {
      var found: seq<FontRecord>, added: set<Key> := [], {};
      found, added := ScanHive(machineHive, machineReadable, systemFontsDir, systemFontsDir, files, found, added);
      found, added := ScanHive(userHive, userReadable, userFontsDir, systemFontsDir, files, found, added);
      ScanAppend(EmptyScan, Candidates(Readable(machineHive, machineReadable), systemFontsDir, systemFontsDir),
                 Candidates(Readable(userHive, userReadable), userFontsDir, systemFontsDir), files);
      fonts := SortByName(found);
    }


    /**
      * `install_font`: checks that the source exists, that its extension is
      * supported and that the target is free, in that order; then copies the
      * file, writes one registry value and broadcasts one notification.
      */
    method InstallFont(fontPath: string, installType: string, copyFault: Option<Fault>, writeFault: Option<Fault>)
      returns (ok: bool, message: string)
      requires Valid()
      modifies this
      ensures Valid()
      ensures Reply(ok, message, State())
        == InstallStep(systemFontsDir, userFontsDir, old(State()), fontPath, installType, copyFault, writeFault)
    {
      if !Exists(files, fontPath) {
        return false, FileMissingMessage;
      }
      var ext := InstallExt(fontPath);
      if !SupportedExt(ext) {
        return false, UnsupportedMessage;
      }
      var fontFilename := Basename(fontPath);
      var scope := InstallScope(installType);
      var targetDir := FontsDir(scope);
      var typeName := TypeName(scope);
      var targetPath := Join(targetDir, fontFilename);
      if Exists(files, targetPath) {
        return false, AlreadyInstalledMessage(typeName);
      }
      ok, message := CopyAndRegister(targetPath, fontFilename, RegistryName(fontFilename, ext), installType, copyFault, writeFault);
    }

    /**
      * The `try` block of `install_font`: `shutil.copy2` to the free target,
      * then the registry write and the notification; a failed write leaves
      * the copied file in place.
      */
    method CopyAndRegister(targetPath: string, fileName: string, regName: string, installType: string,
                           copyFault: Option<Fault>, writeFault: Option<Fault>)
      returns (ok: bool, message: string)
      requires Valid()
      modifies this
      ensures Valid()
      ensures Reply(ok, message, State())
        == CopyAndRegisterStep(old(State()), targetPath, fileName, regName, installType, copyFault, writeFault)
    {
      if copyFault.Some? {
        return false, InstallErrorMessage(copyFault.value, installType);
      }
      files := files + {Lower(targetPath)};
      if writeFault.Some? {
        return false, InstallErrorMessage(writeFault.value, installType);
      }
      var scope := InstallScope(installType);
      if scope == System {
        SetValueDistinct(machineHive, regName, fileName);
        machineHive := SetValue(machineHive, regName, fileName);
      } else {
        SetValueDistinct(userHive, regName, fileName);
        userHive := SetValue(userHive, regName, fileName);
      }
      NotifyFontChange();
      return true, InstalledMessage(TypeName(scope));
    }

    /**
      * `uninstall_font`: deletes the registry value first, then the file if it
      * is still there, then broadcasts one notification.
      */
    method UninstallFont(fontName: string, fontFile: string, fontType: string,
                         deleteFault: Option<Fault>, removeFault: Option<Fault>)
      returns (ok: bool, message: string)
      requires Valid()
      modifies this
      ensures Valid()
      ensures Reply(ok, message, State())
        == UninstallStep(systemFontsDir, userFontsDir, old(State()), fontName, fontFile, fontType, deleteFault, removeFault)
    {
      ghost var os0 := State();
      var scope := UninstallScope(fontType);
      var fontDir := FontsDir(scope);
      if deleteFault.Some? {
        return false, UninstallErrorMessage(deleteFault.value, fontType);
      }
      if !HasValue(HiveOf(scope), fontName) {
        return false, RegistryEntryMissingMessage;
      }
      if scope == System {
        DeleteValueDistinct(machineHive, fontName);
        machineHive := DeleteValue(machineHive, fontName);
      } else {
        DeleteValueDistinct(userHive, fontName);
        userHive := DeleteValue(userHive, fontName);
      }
      ghost var cleared := State();
      assert cleared == WithHive(os0, scope, DeleteValue(HiveIn(os0, scope), fontName));
      var fontPath := Join(fontDir, fontFile);
      if Exists(files, fontPath) {
        if removeFault.Some? {
          return false, UninstallErrorMessage(removeFault.value, fontType);
        }
        files := files - {Lower(fontPath)};
      }
      assert State() == if Exists(os0.files, fontPath) then cleared.(files := os0.files - {Lower(fontPath)}) else cleared;
      NotifyFontChange();
      return true, UninstalledMessage(fontType);
    }
  }
}

/**
  * What a successful installation or uninstallation means for the next
  * enumeration, and a client scenario that chains the engine's operations.
  */
module FontLifecycle {
  import opened Sequences
  import opened Paths
  import opened Catalog
  import opened FontRegistry

  /**
    * Install, then list: once the file is copied and the value written into
    * the scope's hive, the catalog has a record with the key of the written
    * value, (stored name, lower(target)).
    */
  lemma InstalledFontListed(machine: Hive, user: Hive, files: set<string>, systemDir: string, userDir: string,
                            scope: Scope, name: string, fileName: string)
    requires !IsAbs(fileName)
    ensures var dir := if scope == System then systemDir else userDir;
            var hive := if scope == System then machine else user;
            var machine' := if scope == System then SetValue(machine, name, fileName) else machine;
            var user' := if scope == User then SetValue(user, name, fileName) else user;
            var path := Join(dir, fileName);
      Listed(FontCatalog(machine', user', files + {Lower(path)}, systemDir, userDir), (StoredName(hive, name), Lower(path)))
  {
    var dir := if scope == System then systemDir else userDir;
    var machine' := if scope == System then SetValue(machine, name, fileName) else machine;
    var user' := if scope == User then SetValue(user, name, fileName) else user;
    var path := Join(dir, fileName);
    CatalogComplete(machine', user', files + {Lower(path)}, systemDir, userDir);
    assert Resolve(fileName, dir) == path;
    if scope == System {
      assert (StoredName(machine, name), fileName) in machine';
    } else {
      assert (StoredName(user, name), fileName) in user';
    }
  }

  /**
    * A user value is the first existing candidate of its key, once its file
    * exists, when no machine value of the same name resolves to the same
    * file: the other user values differ from it in name.
    */
  lemma UniqueUserValueFirst(machine: Hive, user: Hive, files: set<string>, systemDir: string, userDir: string, m: int)
    requires DistinctNames(user) && 0 <= m < |user|
    requires forall e :: e in machine && e.0 == user[m].0 ==>
               Lower(Resolve(e.1, systemDir)) != Lower(Resolve(user[m].1, userDir))
    requires Exists(files, Resolve(user[m].1, userDir))
    ensures FirstKept(AllCandidates(machine, user, systemDir, userDir), files, |machine| + m)
  {
    var cs := AllCandidates(machine, user, systemDir, userDir);
    var j := |machine| + m;
    assert cs[j] == Candidate(user[m], userDir, systemDir);
    CandidateName(machine, user, systemDir, userDir, j);
    forall i | 0 <= i < j
      ensures KeyOf(cs[i]) != KeyOf(cs[j])
    {
      CandidateName(machine, user, systemDir, userDir, i);
      if i < |machine| {
        assert cs[i] == Candidate(machine[i], systemDir, systemDir);
        assert machine[i] in machine;
      } else {
        assert !SameName(user[i - |machine|].0, user[m].0);
      }
    }
  }

  /**
    * Install into the user scope, then list: unless a machine value of the
    * same name already refers to the same file, the catalog holds exactly
    * the record the written user value produces, with the copied file name
    * and the joined path.
    */
  lemma InstalledUserFontRecord(machine: Hive, user: Hive, files: set<string>, systemDir: string, userDir: string,
                                name: string, fileName: string)
    requires DistinctNames(user) && !IsAbs(fileName)
    requires forall e :: e in machine && e.0 == StoredName(user, name) ==>
               Lower(Resolve(e.1, systemDir)) != Lower(Join(userDir, fileName))
    ensures var path := Join(userDir, fileName);
      FontRecord(StoredName(user, name), fileName, path, Classify(path, systemDir))
        in FontCatalog(machine, SetValue(user, name, fileName), files + {Lower(path)}, systemDir, userDir)
  {
    var path := Join(userDir, fileName);
    var stored := StoredName(user, name);
    var user' := SetValue(user, name, fileName);
    var files' := files + {Lower(path)};
    SetValueDistinct(user, name, fileName);
    var m :| 0 <= m < |user'| && user'[m] == (stored, fileName);
    assert Resolve(fileName, userDir) == path;
    UniqueUserValueFirst(machine, user', files', systemDir, userDir, m);
    var cs := AllCandidates(machine, user', systemDir, userDir);
    var j := |machine| + m;
    assert cs[j] == Candidate((stored, fileName), userDir, systemDir);
    CatalogMembers(machine, user', files', systemDir, userDir);
    assert FirstKept(cs, files', j) && cs[j] == cs[j];
  }

  /**
    * Uninstall, then list: once the value is deleted from the scope's hive
    * and its file removed, no record refers to that file, and any record
    * still carrying the name, in any case, comes from the other hive.
    */
  lemma UninstalledFontGone(machine: Hive, user: Hive, files: set<string>, systemDir: string, userDir: string,
                            scope: Scope, name: string, fileName: string)
    ensures var dir := if scope == System then systemDir else userDir;
            var machine' := if scope == System then DeleteValue(machine, name) else machine;
            var user' := if scope == User then DeleteValue(user, name) else user;
            var path := Join(dir, fileName);
            var cat := FontCatalog(machine', user', files - {Lower(path)}, systemDir, userDir);
      && (forall r :: r in cat ==> Lower(r.path) != Lower(path))
      && (forall r :: r in cat && SameName(r.name, name) ==>
            if scope == System then FromHive(r, user, userDir) else FromHive(r, machine, systemDir))
  {
    var dir := if scope == System then systemDir else userDir;
    var machine' := if scope == System then DeleteValue(machine, name) else machine;
    var user' := if scope == User then DeleteValue(user, name) else user;
    var path := Join(dir, fileName);
    CatalogRecordsResolved(machine', user', files - {Lower(path)}, systemDir, userDir);
    var cat := FontCatalog(machine', user', files - {Lower(path)}, systemDir, userDir);
    forall r | r in cat && SameName(r.name, name)
      ensures if scope == System then FromHive(r, user, userDir) else FromHive(r, machine, systemDir)
    {
      if scope == System {
        assert !FromHive(r, machine', systemDir);
      } else {
        assert !FromHive(r, user', userDir);
      }
    }
  }

  /**
    * Install twice: once a file has been installed into a scope, installing
    * any existing, supported file with the same base name into that scope
    * fails with the already-installed message and changes nothing, whatever
    * faults either call would meet.
    */
  lemma ReinstallRefused(systemDir: string, userDir: string, os: Os, p: string, q: string, installType: string,
                         copyFault: Option<Fault>, writeFault: Option<Fault>,
                         copyFault': Option<Fault>, writeFault': Option<Fault>)
    requires InstallStep(systemDir, userDir, os, p, installType, copyFault, writeFault).ok
    requires Basename(q) == Basename(p)
    requires var r := InstallStep(systemDir, userDir, os, p, installType, copyFault, writeFault);
      Exists(r.os.files, q) && SupportedExt(InstallExt(q))
    ensures var r := InstallStep(systemDir, userDir, os, p, installType, copyFault, writeFault);
      InstallStep(systemDir, userDir, r.os, q, installType, copyFault', writeFault')
        == Reply(false, AlreadyInstalledMessage(TypeName(InstallScope(installType))), r.os)
  {
    var r := InstallStep(systemDir, userDir, os, p, installType, copyFault, writeFault);
    InstallStepCases(systemDir, userDir, os, p, installType, copyFault, writeFault, r);
    assert TargetPath(systemDir, userDir, q, installType) == TargetPath(systemDir, userDir, p, installType);
    var r' := InstallStep(systemDir, userDir, r.os, q, installType, copyFault', writeFault');
    InstallStepCases(systemDir, userDir, r.os, q, installType, copyFault', writeFault', r');
  }

  /** A fault-free user-scope install, in one equation on the state. */
  lemma UserInstallEffect(systemDir: string, userDir: string, os: Os, fontPath: string)
    ensures var r := InstallStep(systemDir, userDir, os, fontPath, "user", None, None);
            var fileName := Basename(fontPath);
            var target := TargetPath(systemDir, userDir, fontPath, "user");
      && (r.ok <==> Exists(os.files, fontPath) && SupportedExt(InstallExt(fontPath)) && !Exists(os.files, target))
      && (r.ok ==> r.os == Os(os.machineHive, SetValue(os.userHive, RegistryName(fileName, InstallExt(fontPath)), fileName),
                              os.files + {Lower(target)}, os.notifications + 1))
      && (Exists(os.files, fontPath) && SupportedExt(InstallExt(fontPath)) && Exists(os.files, target) ==>
            r == Reply(false, AlreadyInstalledMessage(UserTypeName), os))
  {
    InstallStepCases(systemDir, userDir, os, fontPath, "user", None, None,
                     InstallStep(systemDir, userDir, os, fontPath, "user", None, None));
  }

  /** A fault-free user-scope uninstall of a value that is present, in one equation on the state. */
  lemma UserUninstallEffect(systemDir: string, userDir: string, os: Os, fontName: string, fontFile: string)
    requires HasValue(os.userHive, fontName)
    ensures var r := UninstallStep(systemDir, userDir, os, fontName, fontFile, UserTypeName, None, None);
            var path := Join(userDir, fontFile);
      && r.ok
      && r.os == Os(os.machineHive, DeleteValue(os.userHive, fontName), os.files - {Lower(path)}, os.notifications + 1)
  {
    assert UninstallScope(UserTypeName) == User;
    UninstallStepCases(systemDir, userDir, os, fontName, fontFile, UserTypeName, None, None,
                       UninstallStep(systemDir, userDir, os, fontName, fontFile, UserTypeName, None, None));
  }

  /**
    * A user-scope round trip through the engine with no operating-system
    * faults: install, list, install again, uninstall, list.
    */
  method InstallListUninstall(m: FontManager, fontPath: string)
    returns (installed: bool, listed: seq<FontRecord>, again: string,
             uninstalled: bool, remaining: seq<FontRecord>)
    requires m.Valid()
    modifies m
    ensures var target := m.InstallTarget(fontPath, "user");
      installed <==> Exists(old(m.files), fontPath) && SupportedExt(InstallExt(fontPath)) && !Exists(old(m.files), target)
    ensures var fileName := Basename(fontPath);
            var target := m.InstallTarget(fontPath, "user");
            var stored := StoredName(old(m.userHive), RegistryName(fileName, InstallExt(fontPath)));
      installed ==>
        && Listed(listed, (stored, Lower(target)))
        && ((forall e :: e in old(m.machineHive) && e.0 == stored ==>
               Lower(Resolve(e.1, m.systemFontsDir)) != Lower(target)) ==>
              FontRecord(stored, fileName, target, Classify(target, m.systemFontsDir)) in listed)
        && again == AlreadyInstalledMessage(UserTypeName)
        && uninstalled
        && Lower(target) !in m.files
        && (forall r :: r in remaining ==> Lower(r.path) != Lower(target))
        && m.notifications == old(m.notifications) + 2
  {
    ghost var os0 := m.State();
    var fileName := Basename(fontPath);
    var name := RegistryName(fileName, InstallExt(fontPath));
    var target := m.InstallTarget(fontPath, "user");
    var msg;
    installed, msg := m.InstallFont(fontPath, "user", None, None);
    UserInstallEffect(m.systemFontsDir, m.userFontsDir, os0, fontPath);
    listed, again, uninstalled, remaining := [], "", false, [];
    if installed {
      ghost var os1 := m.State();
      assert os1.userHive == SetValue(os0.userHive, name, fileName) && os1.machineHive == os0.machineHive;
      assert os1.files == os0.files + {Lower(target)};
      BasenameRelative(fontPath);
      listed := m.GetInstalledFonts(|m.machineHive|, |m.userHive|);
      InstalledFontListed(os0.machineHive, os0.userHive, os0.files, m.systemFontsDir, m.userFontsDir, User, name, fileName);
      if forall e :: e in os0.machineHive && e.0 == StoredName(os0.userHive, name) ==>
           Lower(Resolve(e.1, m.systemFontsDir)) != Lower(target) {
        InstalledUserFontRecord(os0.machineHive, os0.userHive, os0.files, m.systemFontsDir, m.userFontsDir, name, fileName);
      }
      var ok2;
      ok2, again := m.InstallFont(fontPath, "user", None, None);
      UserInstallEffect(m.systemFontsDir, m.userFontsDir, os1, fontPath);
      assert m.State() == os1;
      assert HasValue(os1.userHive, name) by {
        assert (StoredName(os0.userHive, name), fileName) in os1.userHive;
      }
      var msg3;
      uninstalled, msg3 := m.UninstallFont(name, fileName, UserTypeName, None, None);
      UserUninstallEffect(m.systemFontsDir, m.userFontsDir, os1, name, fileName);
      remaining := m.GetInstalledFonts(|m.machineHive|, |m.userHive|);
      UninstalledFontGone(os0.machineHive, os1.userHive, os1.files, m.systemFontsDir, m.userFontsDir, User, name, fileName);
    }
  }
}
