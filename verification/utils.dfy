/** Classification of an inode or directory entry into the file types the
driver can serve: regular files, directories and symbolic links. Either the
`ftype` byte of a directory entry or the `mode` of an inode is classified.
 */
module Utils {
  import opened Bytes
  import opened Wrappers
  import opened Dir3

  /** The file types of the file-operation interface. */
  datatype FileType = NamedPipe | CharDevice | BlockDevice | Directory | RegularFile | Symlink | Socket

  /** What is classified: a directory entry's type code or an inode's mode. */
  datatype FileKind = Type(code: u8) | Mode(mode: bv16)

  /** POSIX file-format bits of a mode. */
  const S_IFMT: bv16 := 0xF000
  const S_IFIFO: bv16 := 0x1000
  const S_IFCHR: bv16 := 0x2000
  const S_IFDIR: bv16 := 0x4000
  const S_IFBLK: bv16 := 0x6000
  const S_IFREG: bv16 := 0x8000
  const S_IFLNK: bv16 := 0xA000
  const S_IFSOCK: bv16 := 0xC000

  /** The kinds the driver can serve. */
  predicate Supported(t: FileType)
  {
    t == RegularFile || t == Directory || t == Symlink
  }

  /** The directory-entry type code XFS writes for each kind. */
  function DirentCode(t: FileType): u8
  {
    match t
    case RegularFile => XFS_DIR3_FT_REG_FILE
    case Directory => XFS_DIR3_FT_DIR
    case CharDevice => XFS_DIR3_FT_CHRDEV
    case BlockDevice => XFS_DIR3_FT_BLKDEV
    case NamedPipe => XFS_DIR3_FT_FIFO
    case Socket => XFS_DIR3_FT_SOCK
    case Symlink => XFS_DIR3_FT_SYMLINK
  }

  /** The POSIX format bits of each kind. */
  function ModeFormat(t: FileType): bv16
  {
    match t
    case NamedPipe => S_IFIFO
    case CharDevice => S_IFCHR
    case Directory => S_IFDIR
    case BlockDevice => S_IFBLK
    case RegularFile => S_IFREG
    case Symlink => S_IFLNK
    case Socket => S_IFSOCK
  }

  /** `get_file_type`: total over both kinds of input; anything that is not a
      regular file, a directory or a symbolic link is `ENOENT`. */
  function GetFileType(kind: FileKind): (r: Result<FileType>)
    ensures r.Ok? ==> Supported(r.value)
    ensures r.Err? ==> r.errno == ENOENT
  {
    match kind
    case Type(code) =>
      if code == XFS_DIR3_FT_REG_FILE then Ok(RegularFile)
      else if code == XFS_DIR3_FT_DIR then Ok(Directory)
      else if code == XFS_DIR3_FT_SYMLINK then Ok(Symlink)
      else Err(ENOENT)
    case Mode(mode) =>
      var fmt := mode & S_IFMT;
      if fmt == S_IFREG then Ok(RegularFile)
      else if fmt == S_IFDIR then Ok(Directory)
      else if fmt == S_IFLNK then Ok(Symlink)
      else Err(ENOENT)
  }

  /** A type code classifies as `t` exactly when it is the code XFS writes for
      `t` and `t` is a supported kind; every other code (unknown, devices,
      fifos, sockets, whiteouts, and anything from 9 up) is rejected. */
  lemma TypeCodeClassification(code: u8, t: FileType)
    ensures GetFileType(Type(code)) == Ok(t) <==> code == DirentCode(t) && Supported(t)
    ensures GetFileType(Type(code)).Err? <==> forall t' :: Supported(t') ==> code != DirentCode(t')
  {
    if GetFileType(Type(code)).Err? {
      forall t' | Supported(t') ensures code != DirentCode(t') {
      }
    } else {
      assert Supported(GetFileType(Type(code)).value);
    }
  }

  /** A mode classifies as `t` exactly when its format bits are those of `t`
      and `t` is a supported kind. */
  lemma ModeClassification(mode: bv16, t: FileType)
    ensures GetFileType(Mode(mode)) == Ok(t) <==> mode & S_IFMT == ModeFormat(t) && Supported(t)
  {
  }

  /** Only the format bits of a mode matter: permission, set-id and sticky bits
      never change the classification. */
  lemma ModeIgnoresPermissions(mode: bv16, other: bv16)
    requires mode & S_IFMT == other & S_IFMT
    ensures GetFileType(Mode(mode)) == GetFileType(Mode(other))
  {
  }

  /** Both classifications agree on every supported kind, whatever permission
      bits accompany the format. */
  lemma TypeAndModeAgree(t: FileType, perms: bv16)
    requires Supported(t)
    requires perms & S_IFMT == 0
    ensures GetFileType(Type(DirentCode(t))) == GetFileType(Mode(ModeFormat(t) | perms)) == Ok(t)
  {
  }
}
