/** Why a wheel was refused: one constructor for each place the reader raises. */
module ZipFailures {

  datatype Failure =
    | RangeNotSupported
    | ContentEncodingUsed
    | InvalidContentLength
    | ContentLengthMismatch
    | InvalidArchiveSize
    | UnexpectedStatus
    | InvalidContentRange
    | InvalidContentRangeBounds
    | ResponseTooLong
    | ResponseTruncated
    | WrongSuffixRange
    | InvalidByteRange
    | WrongByteRange
    | MalformedExtraField
    | InvalidMemberName
    | MemberDoesNotMatchWheel
    | EndRecordNotFound
    | InvalidEndRecord
    | MultiDisk
    | Zip64
    | InvalidEntryCount
    | CentralDirectoryTooLarge
    | InvalidCentralBounds
    | MalformedCentralDirectory
    | TruncatedCentralDirectory
    | EntryCountMismatch
    | NotExactlyOneMetadata
    | StoredSizeMismatch
    | UnsupportedMethod
    | DeflateTooLarge
    | InvalidDeflate
    | DeflatedSizeMismatch
    | Encrypted
    | MetadataTooLarge
    | EmptyMetadata
    | InvalidLocalHeader
    | HeadersDisagree
    | NamesDisagree
    | CrcMismatch
}
