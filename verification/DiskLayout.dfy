/** The sizes of a 1.44 MB floppy disk's file system. */
module DiskLayout {
  const CLUSTERS := 2880
  /** FS_FAT_SIZE * FS_SECTOR_SIZE */
  const FAT_BYTES := 4608
  const ROOT_ENTRIES := 224
}
